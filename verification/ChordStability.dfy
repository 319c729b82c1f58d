/** What Stabilize does to a network: which rings it leaves alone, when it makes progress, and how two
    nodes find each other. */
module ChordStability {
  import opened Bytes
  import opened Outcomes
  import opened Models
  import opened Ring
  import opened ChordPeer
  import opened ChordRing
  import opened ChordProtocol
  import opened ChordReturns

  /** The predecessor of a is the member whose slot 1 names a; a lone node has none. */
  ghost predicate Greeted(net: Net, a: string)
    requires a in net
  {
    var p := net[a].predecessor;
    if |net| == 1 then p.addr == ""
    else p.addr in net && p.addr != a && Succ(net[p.addr]) == net[a].self
  }

  /** A correct ring with correct predecessors. */
  ghost predicate SettledRing(net: Net) {
    && CorrectRing(net)
    && forall a {:trigger Greeted(net, a)} :: a in net ==> Greeted(net, a)
  }

  lemma PredecessorOwns(net: Net, a: string)
    requires SettledRing(net) && a in net && |net| != 1
    ensures Owns(net, net[a].predecessor, At(net, a)) && Pos(net[a].predecessor) != At(net, a)
  {
    var p := net[a].predecessor;
    assert Greeted(net, a) && Grounded(net, a);
    assert Placed(net, p.addr) && Grounded(net, p.addr);
    assert At(net, p.addr) == Pos(p);
  }

  /** On a settled ring the node that Stabilize contacts is the ring predecessor. */
  lemma ContactIsPredecessor(net: Net, a: string)
    requires SettledRing(net) && a in net
    ensures var r := Successor(net, a, net[a].self.id);
      r == Success(if |net| == 1 then net[a].self else net[a].predecessor)
    ensures Returns(net, a)
  {
    LookupFindsOwner(net, a, net[a].self.id);
    var n := Successor(net, a, net[a].self.id).value;
    if |net| == 1 {
      OnlyMember(net, a, n.addr);
      assert Greeted(net, a);
    } else {
      PredecessorOwns(net, a);
      OwnerIsUnique(net, n, net[a].predecessor, At(net, a));
    }
  }

  /** Nobody sits between a member and the one its slot 1 names. */
  lemma NoneBetween(net: Net, a: string, x: string)
    requires CorrectRing(net) && a in net && x in net
    ensures Succ(net[a]).addr in net
    ensures !Between(At(net, a), At(net, x), At(net, Succ(net[a]).addr))
    ensures Dist(At(net, a), At(net, Succ(net[a]).addr)) <= Dist(At(net, a), At(net, x))
  {
    assert Placed(net, a);
  }

  /** Three members that follow each other around are all the members. */
  lemma CycleOfThree(net: Net, a: string, b: string, c: string)
    requires CorrectRing(net) && a in net && b in net && c in net
    requires Succ(net[a]).addr == b && Succ(net[b]).addr == c && Succ(net[c]).addr == a
    ensures net.Keys == {a, b, c}
  {
    forall x | x in net ensures x in {a, b, c} {
      NoneBetween(net, a, x);
      NoneBetween(net, b, x);
      NoneBetween(net, c, x);
    }
  }

  lemma CycleOfTwo(net: Net, a: string, b: string)
    requires CorrectRing(net) && a in net && b in net
    requires Succ(net[a]).addr == b && Succ(net[b]).addr == a
    ensures net.Keys == {a, b}
  {
    forall x | x in net ensures x in {a, b} {
      NoneBetween(net, a, x);
      NoneBetween(net, b, x);
    }
  }

  lemma FourMembers(net: Net, a: string, b: string, c: string, d: string)
    requires {a, b, c, d} <= net.Keys
    requires a != b && a != c && a != d && b != c && b != d && c != d
    ensures |net| >= 4
  {
    CardinalityMonotone({a, b, c, d}, net.Keys);
  }

  /** s, the ring predecessor of a, lies beyond position 0 seen from its own predecessor. */
  ghost predicate PredecessorWraps(net: Net, a: string)
    requires a in net && net[a].predecessor.addr in net
  {
    var s := net[a].predecessor;
    Pos(net[s.addr].predecessor) > Pos(s)
  }

  /** The Stabilize of a leaves a settled ring as it is exactly if the ring has at most three nodes or the
      wrap falls just before a's predecessor. */
  lemma SettledIsFixedIff(net: Net, a: string)
    requires SettledRing(net) && a in net
    ensures |net| > 1 ==> net[a].predecessor.addr in net
    ensures Stabilize(net, a).net == net <==> |net| <= 3 || PredecessorWraps(net, a)
  {
    ContactIsPredecessor(net, a);
    assert Greeted(net, a) && Grounded(net, a);
    if |net| > 1 {
      var s := net[a].predecessor;
      assert Greeted(net, s.addr) && Grounded(net, s.addr) && Placed(net, s.addr);
      assert At(net, s.addr) == Pos(s) && Pos(s) != At(net, a);
      CompareIsZeroForSameID(net[a].self, s);
      SettledReconcile(net, a, s);
    }
  }

  lemma SettledReconcile(net: Net, a: string, s: Node)
    requires SettledRing(net) && a in net && |net| > 1 && s == net[a].predecessor && s.addr in net
    ensures Reconcile(net, a, s).net == net <==> |net| <= 3 || Pos(net[s.addr].predecessor) > Pos(s)
  {
    assert Greeted(net, a) && Grounded(net, a) && Greeted(net, s.addr) && Grounded(net, s.addr);
    var p := net[s.addr].predecessor;
    assert Grounded(net, p.addr) && Greeted(net, p.addr) && Placed(net, a);
    assert At(net, s.addr) == Pos(s) && At(net, p.addr) == Pos(p);
    NoneBetween(net, p.addr, a);
    if Pos(p) == At(net, a) {
      CycleOfTwo(net, a, s.addr);
      assert |net.Keys| <= 2;
    } else if Pos(p) < Pos(s) {
      assert TakesPredecessor(At(net, a), Pos(p), Pos(s));
      TakingBreaksLongRing(net, a, s, p);
    } else {
      assert !TakesPredecessor(At(net, a), Pos(p), Pos(s));
      assert NotifyAt(net, s.addr, net[a].self) == net;
    }
  }

  lemma TakingBreaksLongRing(net: Net, a: string, s: Node, p: Node)
    requires SettledRing(net) && a in net && |net| > 1 && s == net[a].predecessor && s.addr in net
    requires p == net[s.addr].predecessor && p.addr in net && p.addr != a
    ensures NotifyAt(SetSuccessorAt(net, a, p), p.addr, net[a].self) == net <==> |net| <= 3
  {
    var net' := NotifyAt(SetSuccessorAt(net, a, p), p.addr, net[a].self);
    var b := Succ(net[a]);
    assert Greeted(net, a) && Grounded(net, a) && Greeted(net, s.addr) && Placed(net, a) && Placed(net, p.addr);
    assert Grounded(net, s.addr) && Grounded(net, p.addr) && Greeted(net, p.addr) && Grounded(net, b.addr);
    if b == p {
      CycleOfThree(net, a, p.addr, s.addr);
      assert |net.Keys| <= 3;
      assert Greeted(net, b.addr);
      OwnerIsUnique(net, net[a].self, net[p.addr].predecessor, At(net, p.addr));
      assert net[a].slots[0 := FingerFor(net[a].self, p)] == net[a].slots;
      assert SetSuccessorAt(net, a, p) == net;
      assert net' == net;
    } else {
      assert Succ(net'[a]) == p;
      if b == s {
        OwnerIsUnique(net, net[a].self, p, At(net, s.addr));
      }
      NoneBetween(net, a, s.addr);
      FourMembers(net, a, s.addr, p.addr, b.addr);
    }
  }

  /** A settled ring is left alone by every member's Stabilize exactly when it has at most three nodes. */
  lemma SettledIsFixedForAllIff(net: Net)
    requires SettledRing(net)
    ensures (forall a :: a in net ==> Returns(net, a) && Stabilize(net, a).net == net) <==> |net| <= 3
  {
    forall a | a in net ensures Returns(net, a) {
      ContactIsPredecessor(net, a);
    }
    if |net| <= 3 {
      forall a | a in net ensures Stabilize(net, a).net == net {
        SettledIsFixedIff(net, a);
      }
    } else {
      var a :| a in net;
      SettledIsFixedIff(net, a);
      assert Greeted(net, a) && Grounded(net, a);
      var s := net[a].predecessor;
      SettledIsFixedIff(net, s.addr);
      assert Greeted(net, s.addr) && Grounded(net, s.addr);
      var p := net[s.addr].predecessor;
      assert Greeted(net, p.addr) && Grounded(net, p.addr) && Grounded(net, net[p.addr].predecessor.addr);
      NoneBetween(net, net[p.addr].predecessor.addr, s.addr);
    }
  }

  // ---- Progress ----

  /** In every sound network: the node s that a contacts names as its predecessor p either a or a node
      strictly between a and s. If p lies below s, then a's slot 1 becomes p, strictly nearer than s;
      if p lies above s, the step does nothing. */
  lemma StabilizeTakesNearer(net: Net, a: string)
    requires Inv(net) && Consistent(net) && a in net && !IsRoot(net, a)
    ensures var s := Answered(Successor(net, a, net[a].self.id));
      s.addr in net && s.addr != a
      && (var p, net' := net[s.addr].predecessor, Stabilize(net, a).net;
          a in net'
          && (p == net[a].self || Between(At(net, a), Pos(p), Pos(s)))
          && (p == net[a].self ==> net' == net)
          && (p != net[a].self && Pos(p) < Pos(s) ==>
                Succ(net'[a]) == p && Dist(At(net, a), Pos(p)) < Dist(At(net, a), Pos(s)))
          && (p != net[a].self && Pos(p) >= Pos(s) ==> Pos(p) > Pos(s) && net' == net))
  {
    ContactKnowsNearer(net, a);
    ReconcileTakesNearer(net, a);
    assert Sound(net, a);
    var s := Answered(Successor(net, a, net[a].self.id));
    assert Sound(net, s.addr);
    var p := net[s.addr].predecessor;
    assert At(net, s.addr) == Pos(s) && At(net, p.addr) == Pos(p);
  }

  /** Hence slot 1 of a names p after the step exactly if p lies below s or slot 1 named p before. */
  lemma ProgressIff(net: Net, a: string)
    requires Inv(net) && Consistent(net) && a in net && !IsRoot(net, a)
    ensures var s := Answered(Successor(net, a, net[a].self.id));
      s.addr in net
      && (var p, net' := net[s.addr].predecessor, Stabilize(net, a).net;
          a in net'
          && (p != net[a].self ==> (Succ(net'[a]) == p <==> Pos(p) < Pos(s) || Succ(net[a]) == p)))
  {
    StabilizeTakesNearer(net, a);
  }

  /** The branch conditions in terms of distance, for any positions: in the half that does not wrap, p is taken
      exactly if it is nearer to s than the node itself is; in the other half exactly if it is not. */
  lemma TakesPredecessorIff(ln: Position, p: Position, s: Position)
    requires ln != p
    ensures TakesPredecessor(ln, p, s) <==> if p < s then Dist(p, s) < Dist(ln, s) else Dist(ln, s) < Dist(p, s)
  {
  }

  /** The code of the two halves on any positions, reachable or not: the contacted node s comes to know a as
      nearer, or a takes a nearer p, exactly in the half that does not wrap, or if a names p already. */
  lemma ReconcileProgressIff(net: Net, a: string, s: Node)
    requires a in net && s.addr in net && net[s.addr].self == s && s.addr != a
    requires var p := net[s.addr].predecessor; p.addr != "" && p.addr != s.addr && Pos(p) != At(net, a) && Pos(p) != Pos(s)
    requires Pos(s) != At(net, a)
    ensures var p, net' := net[s.addr].predecessor, Reconcile(net, a, s).net;
      a in net' && s.addr in net'
      && ((net'[s.addr].predecessor == net[a].self && Dist(At(net, a), Pos(s)) < Dist(Pos(p), Pos(s)))
          || (Succ(net'[a]) == p && Dist(At(net, a), Pos(p)) < Dist(At(net, a), Pos(s)))
          <==> Pos(p) < Pos(s) || (Pos(s) < At(net, a) && At(net, a) < Pos(p) && Succ(net[a]) == p))
  {
    var p := net[s.addr].predecessor;
    if TakesPredecessor(At(net, a), Pos(p), Pos(s)) {
      var net' := NotifyAt(SetSuccessorAt(net, a, p), p.addr, net[a].self);
      assert Succ(net'[a]) == p && net'[s.addr].predecessor == p;
    } else if Pos(s) < Pos(p) {
      assert NotifyAt(net, s.addr, net[a].self) == net;
    }
  }

  // ---- Two nodes ----

  /** The first node a, after b has joined through it. */
  ghost function Joined(a: Node, b: Node): Net {
    map[a.addr := WithPredecessor(Lone(a), b), b.addr := WithSuccessor(Lone(b), a)]
  }

  ghost function Closed(a: Node, b: Node): Net {
    map[a.addr := WithPredecessor(WithSuccessor(Lone(a), b), b),
        b.addr := WithPredecessor(WithSuccessor(Lone(b), a), a)]
  }

  ghost predicate Apart(a: Node, b: Node) {
    a.addr != "" && b.addr != "" && a.addr != b.addr && Pos(a) != Pos(b)
  }

  lemma JoinGivesJoined(a: Node, b: Node)
    requires Apart(a, b)
    ensures Consistent(map[a.addr := Lone(a)]) && Join(map[a.addr := Lone(a)], b, a.addr) == Step(Joined(a, b), true)
  {
    var net0 := map[a.addr := Lone(a)];
    assert Grounded(net0, a.addr);
    var net1 := net0[b.addr := Lone(b)];
    assert Answered(Successor(net0, a.addr, b.id)) == a;
    assert NotifyAt(SetSuccessorAt(net1, b.addr, a), a.addr, b) == Joined(a, b);
  }

  lemma ClosedSide(net: Net, a: Node, b: Node)
    requires Apart(a, b) && net.Keys == {a.addr, b.addr} && net[b.addr].self == b
    requires net[a.addr] == WithPredecessor(WithSuccessor(Lone(a), b), b)
    ensures Grounded(net, a.addr) && Placed(net, a.addr)
    ensures Succ(net[a.addr]) == b && net[a.addr].predecessor == b
  {
    forall m | m in net ensures Dist(Pos(a), Pos(b)) <= Dist(Pos(a), At(net, m)) {
      assert m in net.Keys;
    }
  }

  lemma ClosedMembers(net: Net, a: Node, b: Node)
    requires Apart(a, b) && net.Keys == {a.addr, b.addr}
    requires net[a.addr] == WithPredecessor(WithSuccessor(Lone(a), b), b)
    requires net[b.addr] == WithPredecessor(WithSuccessor(Lone(b), a), a)
    ensures SettledRing(net) && |net| == 2
  {
    TwoKeys(net, a, b);
    ClosedSide(net, a, b);
    ClosedSide(net, b, a);
    assert forall x :: x in net ==> x == a.addr || x == b.addr;
    assert Greeted(net, a.addr) && Greeted(net, b.addr);
  }

  lemma ClosedIsSettled(a: Node, b: Node)
    requires Apart(a, b)
    ensures SettledRing(Closed(a, b)) && |Closed(a, b)| == 2
  {
    ClosedMembers(Closed(a, b), a, b);
  }

  lemma TwoKeys(net: Net, a: Node, b: Node)
    requires Apart(a, b) && net.Keys == {a.addr, b.addr} && net[a.addr].self == a && net[b.addr].self == b
    ensures |net| == 2 && "" !in net && DistinctPositions(net)
  {
    assert |net.Keys| == 2;
    forall x, y | x in net && y in net && At(net, x) == At(net, y) ensures x == y {
      assert x in net.Keys && y in net.Keys;
    }
  }

  lemma JoinedIsConsistent(a: Node, b: Node)
    requires Apart(a, b)
    ensures Consistent(Joined(a, b))
  {
    forall x | x in Joined(a, b) ensures Grounded(Joined(a, b), x) {
      assert x == a.addr || x == b.addr;
    }
  }

  /** Before the first node has run, the second node's Stabilize finds nothing to do, and the first node's
      Stabilize closes the ring. */
  lemma StabilizeOnJoined(a: Node, b: Node)
    requires Apart(a, b)
    ensures Consistent(Joined(a, b)) && Returns(Joined(a, b), a.addr) && Returns(Joined(a, b), b.addr)
    ensures Stabilize(Joined(a, b), b.addr).net == Joined(a, b)
    ensures Stabilize(Joined(a, b), a.addr).net == Closed(a, b)
  {
    var net := Joined(a, b);
    JoinedIsConsistent(a, b);
    assert Successor(net, a.addr, a.id) == Success(a);
    assert Successor(net, b.addr, b.id) == Success(a) by {
      assert Precedes(net[b.addr], 0, b.id);
      assert Successor(net, a.addr, b.id) == Success(a);
    }
    assert Follow(net, b, 0) == Follow(net, b, |net|) == End(b);
    CompareIsZeroForSameID(a, a);
    CompareIsZeroForSameID(b, a);
    assert CloseRing(net, a.addr) == Closed(a, b);
  }

  lemma TwoNodesStep(a: Node, b: Node, net: Net, turn: string, net': Net)
    requires Apart(a, b) && turn in {a.addr, b.addr}
    requires net == Closed(a, b) || net == Joined(a, b)
    requires IsStep(net, StabilizeOf(turn), net')
    ensures net' == if turn == a.addr then Closed(a, b) else net
  {
    if net == Closed(a, b) {
      ClosedIsSettled(a, b);
      SettledIsFixedIff(net, turn);
    } else {
      StabilizeOnJoined(a, b);
    }
  }

  /** For every schedule of Stabilize steps on two nodes: the ring is closed from the first node's first
      step on, and never changes again. */
  lemma {:induction false} TwoNodesSettle(a: Node, b: Node, nets: seq<Net>, turns: seq<string>, i: nat)
    requires Apart(a, b)
    requires |nets| == |turns| + 1 && nets[0] == Joined(a, b)
    requires forall j :: 0 <= j < |turns| ==> turns[j] in {a.addr, b.addr}
    requires forall j {:trigger turns[j]} :: 0 <= j < |turns| ==> IsStep(nets[j], StabilizeOf(turns[j]), nets[j + 1])
    requires i < |nets|
    ensures nets[i] == if a.addr in turns[..i] then Closed(a, b) else Joined(a, b)
  {
    if i > 0 {
      TwoNodesSettle(a, b, nets, turns, i - 1);
      assert turns[..i] == turns[..i - 1] + [turns[i - 1]];
      TwoNodesStep(a, b, nets[i - 1], turns[i - 1], nets[i]);
    }
  }
}
