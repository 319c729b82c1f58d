/** Stabilize always comes back: in every state of every run, the walk along predecessors that it may start
    comes to an end. A node whose slot 1 still names itself is the root of the nodes whose slot-1 references
    lead to it; going back along predecessors leads away from the root, never around in a circle. */
module ChordReturns {
  import opened Bytes
  import opened Outcomes
  import opened Models
  import opened Ring
  import opened ChordPeer
  import opened ChordRing
  import opened ChordProtocol

  /** The way each node below a root still has to go clockwise, along slot 1, to reach the root. */
  type Levels = map<string, nat>

  /** x is below the root exactly if its slot 1 is, and its way leads through its slot 1. */
  ghost predicate Forward(net: Net, u: Levels, root: string, x: string)
    requires x in net
  {
    var s := Succ(net[x]);
    (x in u <==> s.addr in u) && (x in u && x != root ==> u[x] == u[s.addr] + Dist(At(net, x), Pos(s)))
  }

  /** The predecessor of x is below the root exactly if x is, and its way leads through x. */
  ghost predicate Backward(net: Net, u: Levels, x: string)
    requires x in net
  {
    var p := net[x].predecessor;
    p.addr != "" ==> (x in u <==> p.addr in u) && (x in u ==> u[p.addr] == u[x] + Dist(Pos(p), At(net, x)))
  }

  ghost predicate Levelled(net: Net, u: Levels, root: string) {
    && root in u && u.Keys <= net.Keys
    && (forall x {:trigger Forward(net, u, root, x)} :: x in net ==> Forward(net, u, root, x))
    && (forall x {:trigger Backward(net, u, x)} :: x in net ==> Backward(net, u, x))
  }

  ghost predicate IsRoot(net: Net, a: string)
    requires a in net
  {
    Succ(net[a]).addr == a
  }

  ghost predicate HasLevels(net: Net, a: string)
    requires a in net
  {
    IsRoot(net, a) ==> exists u: Levels :: Levelled(net, u, a)
  }

  ghost predicate AllLevelled(net: Net) {
    forall a {:trigger HasLevels(net, a)} :: a in net ==> HasLevels(net, a)
  }

  // ---- Levels make the walk end ----

  lemma {:induction false} LevelsAreBounded(u: Levels) returns (b: nat)
    ensures forall x :: x in u ==> u[x] <= b
    decreases |u|
  {
    b := 0;
    if u != map[] {
      var x :| x in u;
      var rest := u - {x};
      assert rest.Keys == u.Keys - {x};
      var c := LevelsAreBounded(rest);
      b := if u[x] > c then u[x] else c;
      forall y | y in u ensures u[y] <= b {
        assert y != x ==> y in rest;
      }
    }
  }

  lemma {:induction false} WalkClimbs(net: Net, u: Levels, root: string, n: Node, b: nat)
    requires Levelled(net, u, root) && n.addr in u
    requires forall x :: x in u ==> u[x] <= b
    ensures Follow(net, n, b - u[n.addr]) != Running
    decreases b - u[n.addr]
  {
    assert n.addr in net && Backward(net, u, n.addr);
    var p := PredecessorAt(net, n.addr);
    if p.addr != "" {
      WalkClimbs(net, u, root, p, b);
      FollowStaysStopped(net, p, b - u[p.addr], b - u[n.addr] - 1);
    }
  }

  /** The walk from a root's predecessor ends, and ends within as many steps as there are members. */
  lemma RootWalkEnds(net: Net, a: string)
    requires Inv(net) && AllLevelled(net) && a in net && IsRoot(net, a) && net[a].predecessor.addr != ""
    ensures ChainStops(net, net[a].predecessor)
    ensures Follow(net, net[a].predecessor, |net|) != Running
  {
    assert HasLevels(net, a);
    var u: Levels :| Levelled(net, u, a);
    assert Backward(net, u, a);
    var b := LevelsAreBounded(u);
    WalkClimbs(net, u, a, net[a].predecessor, b);
    forall x | x in net ensures net[x].self.addr == x {
      assert Sound(net, x);
    }
    WalkEndsIff(net, net[a].predecessor);
  }

  // ---- Where a lookup goes ----

  /** With only slot 1 filled, a lookup either stops or takes slot 1. */
  lemma ClosestIsSlotOne(net: Net, b: string, id: Identifier)
    requires Inv(net) && b in net
    ensures var n := ClosestPreceding(net[b], id); n == net[b].self || n == Succ(net[b])
    ensures ClosestPreceding(net[b], id) == net[b].self <==> !Between(At(net, b), Pos(Succ(net[b])), KeyToID(id))
  {
    assert Sound(net, b);
    var p := net[b];
    forall i | 1 <= i < M ensures !Precedes(p, i, id) {
      assert p.slots[i] == NO_FINGER;
    }
    assert Precedes(p, 0, id) <==> Between(At(net, b), Pos(Succ(p)), KeyToID(id));
  }

  /** A lookup that leaves b stops strictly before the key, at a node that knows a predecessor at least as
      near as b. */
  lemma {:induction false} LookupApproaches(net: Net, b: string, id: Identifier)
    requires Inv(net) && Consistent(net) && b in net
    ensures var s := Answered(Successor(net, b, id));
      s.addr in net && net[s.addr].self == s
      && (s != net[b].self ==> Between(At(net, b), Pos(s), KeyToID(id)) && Known(net, b, s.addr))
    decreases Dist(At(net, b), KeyToID(id))
  {
    ClosestIsSlotOne(net, b, id);
    assert Sound(net, b) && Grounded(net, b);
    var n := ClosestPreceding(net[b], id);
    if n != net[b].self {
      LookupApproaches(net, n.addr, id);
      var s := Answered(Successor(net, n.addr, id));
      assert At(net, s.addr) == Pos(s) && At(net, n.addr) == Pos(n);
    }
  }

  /** It stays below the root, or off it, and covers exactly the difference of the levels. */
  lemma {:induction false} LookupDescends(net: Net, u: Levels, root: string, b: string, id: Identifier)
    requires Inv(net) && Consistent(net) && b in net && Levelled(net, u, root) && root in net && IsRoot(net, root)
    ensures var s := Answered(Successor(net, b, id));
      (b in u <==> s.addr in u)
      && (b in u && s != net[b].self ==> u[b] == u[s.addr] + Dist(At(net, b), Pos(s)))
    decreases Dist(At(net, b), KeyToID(id))
  {
    ClosestIsSlotOne(net, b, id);
    assert Sound(net, b) && Grounded(net, b) && Forward(net, u, root, b);
    var n := ClosestPreceding(net[b], id);
    if n != net[b].self {
      LookupApproaches(net, n.addr, id);
      LookupDescends(net, u, root, n.addr, id);
    }
  }

  /** A node's lookup of its own identifier ends at itself only if its slot 1 names itself. */
  lemma OwnLookup(net: Net, a: string)
    requires Inv(net) && Consistent(net) && a in net
    ensures Successor(net, a, net[a].self.id) == Success(net[a].self) <==> IsRoot(net, a)
    ensures Successor(net, a, net[a].self.id).Success?
    ensures Answered(Successor(net, a, net[a].self.id)).id == net[a].self.id ==> IsRoot(net, a)
  {
    assert Sound(net, a);
    var id := net[a].self.id;
    ClosestIsSlotOne(net, a, id);
    LookupApproaches(net, a, id);
    var s := Succ(net[a]);
    assert At(net, s.addr) == Pos(s);
    if !IsRoot(net, a) {
      assert ClosestPreceding(net[a], id) == s;
      LookupApproaches(net, s.addr, id);
    }
  }

  lemma AlwaysReturns(net: Net, a: string)
    requires Inv(net) && Consistent(net) && AllLevelled(net) && a in net
    ensures Returns(net, a)
  {
    OwnLookup(net, a);
    if IsRoot(net, a) && net[a].predecessor.addr != "" {
      RootWalkEnds(net, a);
    }
  }

  /** The node that Stabilize contacts knows the caller, or a predecessor strictly between the two. */
  lemma ContactKnowsNearer(net: Net, a: string)
    requires Inv(net) && Consistent(net) && a in net && !IsRoot(net, a)
    ensures var s := Answered(Successor(net, a, net[a].self.id));
      s.addr in net && s.addr != a && net[s.addr].self == s && s.id != net[a].self.id
      && (var p := net[s.addr].predecessor;
          p.addr in net && net[p.addr].self == p && (p == net[a].self || Between(At(net, a), Pos(p), Pos(s))))
  {
    OwnLookup(net, a);
    LookupApproaches(net, a, net[a].self.id);
    var s := Answered(Successor(net, a, net[a].self.id));
    assert Sound(net, a) && Sound(net, s.addr);
    var p := net[s.addr].predecessor;
    assert At(net, s.addr) == Pos(s) && At(net, p.addr) == Pos(p);
  }

  /** So of the branches of Reconcile only two are ever taken: a is known already or the wrap keeps it from
      doing anything, and then nothing changes; or a takes the nearer node p. */
  lemma ReconcileTakesNearer(net: Net, a: string)
    requires Inv(net) && Consistent(net) && a in net && !IsRoot(net, a)
    ensures var s := Answered(Successor(net, a, net[a].self.id));
      s.addr in net
      && (var p := net[s.addr].predecessor;
          Stabilize(net, a).net ==
            if p != net[a].self && Pos(p) < Pos(s) then NotifyAt(SetSuccessorAt(net, a, p), p.addr, net[a].self)
            else net)
  {
    OwnLookup(net, a);
    ContactKnowsNearer(net, a);
    var s := Answered(Successor(net, a, net[a].self.id));
    CompareIsZeroForSameID(net[a].self, s);
    var p := net[s.addr].predecessor;
    assert At(net, p.addr) == Pos(p);
    if p != net[a].self && Pos(p) >= Pos(s) {
      assert NotifyAt(net, s.addr, net[a].self) == net;
    }
  }

  // ---- Every step keeps the levels ----

  /** The network after a has taken b and presented itself. */
  function Linked(net: Net, a: string, b: string): Net
    requires a in net && b in net
  {
    NotifyAt(SetSuccessorAt(net, a, net[b].self), b, net[a].self)
  }

  lemma LinkForward(net: Net, a: string, b: string, u: Levels, root: string, x: string)
    requires a in net && b in net && a != b && net[b].self.addr == b && x in net
    requires x != a ==> Forward(net, u, root, x)
    requires (a in u <==> b in u) && (a in u ==> u[a] == u[b] + Dist(At(net, a), At(net, b)))
    ensures Forward(Linked(net, a, b), u, root, x)
  {
  }

  lemma LinkBackward(net: Net, a: string, b: string, u: Levels, x: string)
    requires a in net && b in net && a != b && net[a].self.addr == a && x in net
    requires Backward(net, u, x)
    requires (a in u <==> b in u) && (a in u ==> u[a] == u[b] + Dist(At(net, a), At(net, b)))
    ensures Backward(Linked(net, a, b), u, x)
  {
  }

  /** a, whatever its old slot 1 was, takes b and presents itself. */
  lemma LinkKeepsLevels(net: Net, a: string, b: string, u: Levels, root: string)
    requires a in net && b in net && a != b && net[a].self.addr == a && net[b].self.addr == b && a != root
    requires root in u && u.Keys <= net.Keys
    requires forall x {:trigger Forward(net, u, root, x)} :: x in net && x != a ==> Forward(net, u, root, x)
    requires forall x {:trigger Backward(net, u, x)} :: x in net ==> Backward(net, u, x)
    requires (a in u <==> b in u) && (a in u ==> u[a] == u[b] + Dist(At(net, a), At(net, b)))
    ensures Levelled(Linked(net, a, b), u, root)
  {
    var net' := Linked(net, a, b);
    assert net'.Keys == net.Keys;
    forall x | x in net' ensures Forward(net', u, root, x) {
      assert x in net.Keys;
      LinkForward(net, a, b, u, root, x);
    }
    forall x | x in net' ensures Backward(net', u, x) {
      assert x in net.Keys && Backward(net, u, x);
      LinkBackward(net, a, b, u, x);
    }
  }

  lemma LoneKeepsLevels(net: Net, self: Node, u: Levels, root: string)
    requires Inv(net) && self.addr !in net && self.addr != "" && Levelled(net, u, root)
    ensures Levelled(net[self.addr := Lone(self)], u, root)
  {
    var net' := net[self.addr := Lone(self)];
    forall x | x in net' ensures Forward(net', u, root, x) && Backward(net', u, x) {
      if x != self.addr {
        assert Forward(net, u, root, x) && Backward(net, u, x);
      }
    }
  }

  lemma LoneIsLevelled(net: Net, self: Node)
    requires Inv(net) && self.addr !in net && self.addr != ""
    ensures Levelled(net[self.addr := Lone(self)], map[self.addr := 0], self.addr)
  {
    var net' := net[self.addr := Lone(self)];
    forall x | x in net'
      ensures Forward(net', map[self.addr := 0], self.addr, x) && Backward(net', map[self.addr := 0], x)
    {
      if x != self.addr {
        assert Sound(net, x);
      }
    }
  }

  lemma LoneJoinKeepsLevels(net: Net, self: Node)
    requires Inv(net) && AllLevelled(net) && self.addr !in net && self.addr != ""
    ensures AllLevelled(net[self.addr := Lone(self)])
  {
    var net' := net[self.addr := Lone(self)];
    forall a | a in net' ensures HasLevels(net', a) {
      if a == self.addr {
        LoneIsLevelled(net, self);
      } else if IsRoot(net', a) {
        assert HasLevels(net, a);
        var u: Levels :| Levelled(net, u, a);
        LoneKeepsLevels(net, self, u, a);
      }
    }
  }

  /** A new node joins at s: below the root exactly if s is. */
  lemma JoinedKeepsLevels(net: Net, self: Node, s: string, u: Levels, root: string) returns (v: Levels)
    requires Inv(net) && self.addr !in net && self.addr != "" && s in net && Levelled(net, u, root)
    ensures Levelled(Linked(net[self.addr := Lone(self)], self.addr, s), v, root)
  {
    var net0 := net[self.addr := Lone(self)];
    v := u;
    LoneKeepsLevels(net, self, u, root);
    assert Sound(net, s);
    if s in u {
      v := u[self.addr := u[s] + Dist(Pos(self), At(net, s))];
      forall x | x in net0 ensures (x != self.addr ==> Forward(net0, v, root, x)) && Backward(net0, v, x) {
        if x != self.addr {
          assert Sound(net, x) && Forward(net, u, root, x) && Backward(net, u, x);
        }
      }
      LinkKeepsLevels(net0, self.addr, s, v, root);
    } else {
      LinkKeepsLevels(net0, self.addr, s, u, root);
    }
  }

  lemma JoinKeepsLevels(net: Net, self: Node, peer: string)
    requires Inv(net) && Consistent(net) && AllLevelled(net)
    requires self.addr !in net && self.addr != "" && forall a :: a in net ==> At(net, a) != Pos(self)
    ensures AllLevelled(Join(net, self, peer).net)
  {
    if peer !in net {
      LoneJoinKeepsLevels(net, self);
    } else {
      LookupNamesMember(net, peer, self.id);
      var s := Answered(Successor(net, peer, self.id));
      var net' := NotifyAt(SetSuccessorAt(net[self.addr := Lone(self)], self.addr, s), s.addr, self);
      assert net' == Join(net, self, peer).net;
      forall a | a in net' ensures HasLevels(net', a) {
        if IsRoot(net', a) {
          assert a != self.addr && IsRoot(net, a) && HasLevels(net, a);
          var u: Levels :| Levelled(net, u, a);
          var v := JoinedKeepsLevels(net, self, s.addr, u, a);
        }
      }
    }
  }

  /** A node that is no root takes the nearer node p. */
  lemma TakeKeepsLevels(net: Net, a: string, u: Levels, root: string)
    requires Inv(net) && Consistent(net) && a in net && !IsRoot(net, a)
    requires root in net && IsRoot(net, root) && Levelled(net, u, root)
    ensures Levelled(Stabilize(net, a).net, u, root)
  {
    ReconcileTakesNearer(net, a);
    ContactKnowsNearer(net, a);
    LookupDescends(net, u, root, a, net[a].self.id);
    var s := Answered(Successor(net, a, net[a].self.id));
    var p := net[s.addr].predecessor;
    assert Sound(net, s.addr) && Sound(net, a) && Backward(net, u, s.addr);
    assert At(net, s.addr) == Pos(s) && At(net, p.addr) == Pos(p);
    if p != net[a].self && Pos(p) < Pos(s) {
      LinkKeepsLevels(net, a, p.addr, u, root);
    }
  }

  lemma {:induction false} WalkStaysOff(net: Net, u: Levels, root: string, n: Node, k: nat)
    requires Levelled(net, u, root) && n.addr !in u && Follow(net, n, k).End?
    ensures Follow(net, n, k).node.addr !in u
    decreases k
  {
    assert Backward(net, u, n.addr);
    if PredecessorAt(net, n.addr).addr != "" {
      WalkStaysOff(net, u, root, PredecessorAt(net, n.addr), k - 1);
    }
  }

  /** A root that closes its ring is off the levels of every other root, and so is all of its ring. */
  lemma CloseKeepsLevels(net: Net, a: string, u: Levels, root: string)
    requires Inv(net) && a in net && IsRoot(net, a) && a != root && Levelled(net, u, root)
    ensures Levelled(CloseRing(net, a), u, root)
  {
    assert Sound(net, a) && Forward(net, u, root, a) && Backward(net, u, a);
    var p := net[a].predecessor;
    if p.addr != "" && Follow(net, p, |net|).End? {
      FollowNamesMember(net, p, |net|);
      WalkStaysOff(net, u, root, p, |net|);
      LinkKeepsLevels(net, a, Follow(net, p, |net|).node.addr, u, root);
    }
  }

  /** Slot 1 of other nodes does not change when a stabilizes, and a itself does not become a root. */
  lemma StabilizeMakesNoRoot(net: Net, a: string, x: string)
    requires Inv(net) && Consistent(net) && a in net
    ensures var net' := Stabilize(net, a).net;
      x in net' && IsRoot(net', x) ==> x in net && IsRoot(net, x) && (x == a ==> net' == net)
  {
    OwnLookup(net, a);
    if IsRoot(net, a) {
      assert Sound(net, a);
      CompareIsZeroForSameID(net[a].self, net[a].self);
      var p := net[a].predecessor;
      if p.addr != "" {
        FollowNamesMember(net, p, |net|);
      }
    } else {
      ReconcileTakesNearer(net, a);
      ContactKnowsNearer(net, a);
      assert Sound(net, a);
      var p := net[Answered(Successor(net, a, net[a].self.id)).addr].predecessor;
      assert p.addr == a ==> p == net[a].self;
    }
  }

  lemma StabilizeKeepsLevels(net: Net, a: string)
    requires Inv(net) && Consistent(net) && AllLevelled(net) && a in net
    ensures AllLevelled(Stabilize(net, a).net)
  {
    var net' := Stabilize(net, a).net;
    OwnLookup(net, a);
    CompareIsZeroForSameID(net[a].self, net[a].self);
    forall x | x in net' ensures HasLevels(net', x) {
      StabilizeMakesNoRoot(net, a, x);
      if IsRoot(net', x) {
        assert HasLevels(net, x);
        var u: Levels :| Levelled(net, u, x);
        if !IsRoot(net, a) {
          TakeKeepsLevels(net, a, u, x);
        } else if x != a {
          CloseKeepsLevels(net, a, u, x);
        }
      }
    }
  }

  // ---- Runs ----

  lemma {:induction false} RunIsLevelled(nets: seq<Net>, acts: seq<Action>, i: nat)
    requires IsRun(nets, acts) && i < |nets|
    ensures AllLevelled(nets[i])
  {
    if i > 0 {
      RunIsLevelled(nets, acts, i - 1);
      RunKeepsInvariant(nets, acts, i - 1);
      StepKeepsLevels(nets[i - 1], acts[i - 1], nets[i]);
    }
  }

  lemma StepKeepsLevels(net: Net, act: Action, net': Net)
    requires Inv(net) && AllLevelled(net) && IsStep(net, act, net')
    ensures AllLevelled(net')
  {
    match act
    case JoinOf(self, peer) => JoinKeepsLevels(net, self, peer);
    case StabilizeOf(a) => StabilizeKeepsLevels(net, a);
  }

  /** In every state of every run, Stabilize returns on every member. */
  lemma RunAlwaysReturns(nets: seq<Net>, acts: seq<Action>, i: nat)
    requires IsRun(nets, acts) && i < |nets|
    ensures Consistent(nets[i]) && forall a :: a in nets[i] ==> Returns(nets[i], a)
  {
    RunKeepsInvariant(nets, acts, i);
    InvIsConsistent(nets[i]);
    RunIsLevelled(nets, acts, i);
    forall a | a in nets[i] ensures Returns(nets[i], a) {
      AlwaysReturns(nets[i], a);
    }
  }
}
