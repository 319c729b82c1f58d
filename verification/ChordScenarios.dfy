/** Runs that exist: a step that makes no progress because of the wrap, and a settled ring of four nodes that
    the next steps take apart again. */
module ChordScenarios {
  import opened Bytes
  import opened Outcomes
  import opened Models
  import opened Ring
  import opened ChordPeer
  import opened ChordRing
  import opened ChordProtocol
  import opened ChordReturns
  import opened ChordStability

  /** A node at a position of choice; its identifier is that number. */
  function NodeAt(p: Position, addr: string): Node {
    Node([0, 0, 0, 0, 0, 0, 0, 0, 0, 0, 0, 0, 0, 0, 0, 0, 0, 0, 0, p as byte], addr)
  }

  lemma {:induction false} LeadingZeros(bytes: seq<byte>)
    requires forall i :: 0 <= i < |bytes| ==> bytes[i] == 0
    ensures BigEndian(bytes) == 0
  {
    if bytes != [] {
      LeadingZeros(bytes[..|bytes| - 1]);
    }
  }

  /** Every position is taken by some node. */
  lemma NodeAtHasPosition(p: Position, addr: string)
    ensures Pos(NodeAt(p, addr)) == p
  {
    var id := NodeAt(p, addr).id;
    LeadingZeros(id[..19]);
    assert BigEndian(id) == p;
  }

  // ---- Nodes with slot 1 only ----

  function Cell(self: Node, succ: Node, predecessor: Node): Peer {
    Peer(self, NoSlots()[0 := FingerFor(self, succ)], predecessor)
  }

  lemma CellTakes(self: Node, succ: Node, predecessor: Node, n: Node)
    ensures WithSuccessor(Cell(self, succ, predecessor), n) == Cell(self, n, predecessor)
  {
    assert NoSlots()[0 := FingerFor(self, succ)][0 := FingerFor(self, n)] == NoSlots()[0 := FingerFor(self, n)];
  }

  lemma Stops(net: Net, x: string, id: Identifier)
    requires Inv(net) && Consistent(net) && x in net
    requires !Between(At(net, x), Pos(Succ(net[x])), KeyToID(id))
    ensures Successor(net, x, id) == Success(net[x].self)
  {
    ClosestIsSlotOne(net, x, id);
  }

  lemma Goes(net: Net, x: string, id: Identifier)
    requires Inv(net) && Consistent(net) && x in net
    requires Between(At(net, x), Pos(Succ(net[x])), KeyToID(id))
    ensures Succ(net[x]).addr in net && Successor(net, x, id) == Successor(net, Succ(net[x]).addr, id)
  {
    assert Sound(net, x);
    ClosestIsSlotOne(net, x, id);
    LookupNamesMember(net, Succ(net[x]).addr, id);
  }

  /** A join through a peer whose lookup gives s. */
  lemma JoinStep(net: Net, self: Node, peer: string, s: Node)
    requires Inv(net) && Consistent(net) && Enabled(net, JoinOf(self, peer))
    requires peer in net && Successor(net, peer, self.id) == Success(s) && s.addr in net
    ensures var net' := net[self.addr := Cell(self, s, NO_NODE)][s.addr := WithPredecessor(net[s.addr], self)];
      IsStep(net, JoinOf(self, peer), net') && Inv(net')
  {
    var net' := net[self.addr := Cell(self, s, NO_NODE)][s.addr := WithPredecessor(net[s.addr], self)];
    CellTakes(self, self, NO_NODE, s);
    assert Join(net, self, peer).net == net';
    StepPreserves(net, JoinOf(self, peer), net');
  }

  lemma FirstStep(self: Node)
    requires self.addr != ""
    ensures IsStep(map[], JoinOf(self, ""), map[self.addr := Cell(self, self, NO_NODE)])
    ensures Inv(map[self.addr := Cell(self, self, NO_NODE)])
  {
    assert Inv(map[]) && Consistent(map[]);
    StepPreserves(map[], JoinOf(self, ""), map[self.addr := Cell(self, self, NO_NODE)]);
  }

  /** A Stabilize that takes the nearer node p, named by the contacted node s. */
  lemma TakeStep(net: Net, a: string, s: Node, p: Node)
    requires Inv(net) && Consistent(net) && a in net && !IsRoot(net, a)
    requires Successor(net, a, net[a].self.id) == Success(s) && s.addr in net && net[s.addr].predecessor == p
    requires p != net[a].self && Pos(p) < Pos(s)
    ensures p.addr in net && p.addr != a
    ensures var net' := net[a := WithSuccessor(net[a], p)][p.addr := WithPredecessor(net[p.addr], net[a].self)];
      IsStep(net, StabilizeOf(a), net') && Inv(net')
  {
    ReconcileTakesNearer(net, a);
    ContactKnowsNearer(net, a);
    assert Sound(net, a) && Sound(net, p.addr);
    var net' := net[a := WithSuccessor(net[a], p)][p.addr := WithPredecessor(net[p.addr], net[a].self)];
    StepPreserves(net, StabilizeOf(a), net');
  }

  /** A join through a node whose slot 1 names itself. */
  lemma JoinThroughLone(net: Net, s: Node, n: Node)
    requires Inv(net) && s.addr in net && net[s.addr].self == s && IsRoot(net, s.addr)
    requires n.addr !in net && n.addr != "" && forall a :: a in net ==> At(net, a) != Pos(n)
    ensures var net' := net[n.addr := Cell(n, s, NO_NODE)][s.addr := WithPredecessor(net[s.addr], n)];
      IsStep(net, JoinOf(n, s.addr), net') && Inv(net')
  {
    InvIsConsistent(net);
    assert Sound(net, s.addr);
    Stops(net, s.addr, n.id);
    JoinStep(net, n, s.addr, s);
  }

  /** Some run from the empty network ends in net. */
  ghost predicate Reached(net: Net) {
    Inv(net) && exists nets, acts :: IsRun(nets, acts) && nets[|acts|] == net
  }

  lemma NothingIsReached()
    ensures Reached(map[])
  {
    var empty: Net := map[];
    assert IsRun([empty], []) && [empty][0] == empty;
  }

  lemma StepIsReached(net: Net, act: Action, net': Net)
    requires Reached(net) && IsStep(net, act, net')
    ensures Reached(net')
  {
    StepPreserves(net, act, net');
    var nets, acts :| IsRun(nets, acts) && nets[|acts|] == net;
    var nets', acts' := nets + [net'], acts + [act];
    forall i | 0 <= i < |acts'| ensures IsStep(nets'[i], acts'[i], nets'[i + 1]) {
      if i < |acts| {
        assert nets'[i] == nets[i] && nets'[i + 1] == nets[i + 1] && acts'[i] == acts[i];
      }
    }
    assert IsRun(nets', acts') && nets'[|acts'|] == net';
  }

  /** Non-empty addresses and strictly increasing positions. */
  ghost predicate Ascending(ns: seq<Node>) {
    && (forall i :: 0 <= i < |ns| ==> ns[i].addr != "")
    && (forall i, j :: 0 <= i < j < |ns| ==> Pos(ns[i]) < Pos(ns[j]) && ns[i].addr != ns[j].addr)
  }

  /** There are such nodes. */
  lemma AscendingExists() returns (ns: seq<Node>)
    ensures |ns| == 4 && Ascending(ns) && Ascending(ns[..3])
  {
    ns := [NodeAt(10, "a"), NodeAt(50, "b"), NodeAt(100, "c"), NodeAt(150, "d")];
    NodeAtHasPosition(10, "a");
    NodeAtHasPosition(50, "b");
    NodeAtHasPosition(100, "c");
    NodeAtHasPosition(150, "d");
    assert "a"[0] != "b"[0] && "a"[0] != "c"[0] && "a"[0] != "d"[0] && "b"[0] != "c"[0] && "b"[0] != "d"[0] && "c"[0] != "d"[0];
  }

  // ---- The wrap gets in the way ----

  function Wrap1(s: Node): Net {
    map[s.addr := Cell(s, s, NO_NODE)]
  }

  function Wrap2(s: Node, l: Node): Net {
    map[s.addr := Cell(s, s, l), l.addr := Cell(l, s, NO_NODE)]
  }

  function Wrap3(s: Node, l: Node, p: Node): Net {
    map[s.addr := Cell(s, s, p), l.addr := Cell(l, s, NO_NODE), p.addr := Cell(p, s, NO_NODE)]
  }

  lemma OneIsReached(s: Node)
    requires s.addr != ""
    ensures Reached(Wrap1(s))
  {
    NothingIsReached();
    FirstStep(s);
    StepIsReached(map[], JoinOf(s, ""), Wrap1(s));
  }

  lemma TwoAreReached(s: Node, l: Node)
    requires s.addr != "" && l.addr != "" && s.addr != l.addr && Pos(s) != Pos(l)
    ensures Reached(Wrap2(s, l))
  {
    OneIsReached(s);
    var net := Wrap1(s);
    JoinThroughLone(net, s, l);
    assert net[l.addr := Cell(l, s, NO_NODE)][s.addr := WithPredecessor(net[s.addr], l)] == Wrap2(s, l);
    StepIsReached(net, JoinOf(l, s.addr), Wrap2(s, l));
  }

  lemma Wrap3Write(s: Node, l: Node, p: Node)
    requires l.addr != "" && s.addr !in {l.addr, p.addr} && l.addr != p.addr && Pos(s) < Pos(l) < Pos(p)
    ensures Wrap2(s, l)[p.addr := Cell(p, s, NO_NODE)][s.addr := WithPredecessor(Wrap2(s, l)[s.addr], p)] == Wrap3(s, l, p)
  {
  }

  lemma ThreeAreReached(s: Node, l: Node, p: Node)
    requires Ascending([s, l, p])
    ensures Reached(Wrap3(s, l, p))
  {
    assert s == [s, l, p][0] && l == [s, l, p][1] && p == [s, l, p][2];
    TwoAreReached(s, l);
    var net := Wrap2(s, l);
    forall x | x in net ensures At(net, x) != Pos(p) && x != p.addr {
      assert x in {s.addr, l.addr};
    }
    JoinThroughLone(net, s, p);
    Wrap3Write(s, l, p);
    StepIsReached(net, JoinOf(p, s.addr), Wrap3(s, l, p));
  }

  /** s is alone, l and p join through it. Then l asks s and hears of the nearer p, but its Stabilize changes
      nothing, because p lies above s. */
  lemma WrapStopsProgress(s: Node, l: Node, p: Node)
    requires Ascending([s, l, p])
    ensures var net := Wrap3(s, l, p);
      Reached(net) && Consistent(net)
      && Answered(Successor(net, l.addr, l.id)) == s && net[s.addr].predecessor == p && Between(Pos(l), Pos(p), Pos(s))
      && Stabilize(net, l.addr).net == net && Succ(net[l.addr]) == s
  {
    assert s == [s, l, p][0] && l == [s, l, p][1] && p == [s, l, p][2];
    ThreeAreReached(s, l, p);
    var net := Wrap3(s, l, p);
    InvIsConsistent(net);
    Goes(net, l.addr, l.id);
    Stops(net, s.addr, l.id);
    ReconcileTakesNearer(net, l.addr);
  }

  // ---- A settled ring of four ----

  function Four3(a: Node, c: Node, d: Node): Net {
    map[c.addr := Cell(c, c, a), a.addr := Cell(a, c, NO_NODE), d.addr := Cell(d, c, NO_NODE)]
  }

  function Four4(a: Node, c: Node, d: Node): Net {
    map[c.addr := Cell(c, c, a), a.addr := Cell(a, c, d), d.addr := Cell(d, a, NO_NODE)]
  }

  function Four5(a: Node, b: Node, c: Node, d: Node): Net {
    map[c.addr := Cell(c, c, b), a.addr := Cell(a, c, d), d.addr := Cell(d, a, NO_NODE), b.addr := Cell(b, c, NO_NODE)]
  }

  function Four6(a: Node, b: Node, c: Node, d: Node): Net {
    map[c.addr := Cell(c, c, b), a.addr := Cell(a, b, d), d.addr := Cell(d, a, NO_NODE), b.addr := Cell(b, c, a)]
  }

  function Four7(a: Node, b: Node, c: Node, d: Node): Net {
    map[c.addr := Cell(c, d, b), a.addr := Cell(a, b, d), d.addr := Cell(d, a, c), b.addr := Cell(b, c, a)]
  }

  /** c is alone and a has joined through it; d joins through a. */
  lemma Four3IsReached(a: Node, c: Node, d: Node)
    requires Ascending([a, c, d])
    ensures Reached(Four3(a, c, d))
  {
    assert a == [a, c, d][0] && c == [a, c, d][1] && d == [a, c, d][2];
    TwoAreReached(c, a);
    var net := Wrap2(c, a);
    InvIsConsistent(net);
    Goes(net, a.addr, d.id);
    Stops(net, c.addr, d.id);
    JoinStep(net, d, a.addr, c);
    assert net[d.addr := Cell(d, c, NO_NODE)][c.addr := WithPredecessor(net[c.addr], d)] == Four3(a, c, d);
    StepIsReached(net, JoinOf(d, a.addr), Four3(a, c, d));
  }

  /** d stabilizes and takes a. */
  lemma Four4IsReached(a: Node, c: Node, d: Node)
    requires Ascending([a, c, d])
    ensures Reached(Four4(a, c, d))
  {
    assert a == [a, c, d][0] && c == [a, c, d][1] && d == [a, c, d][2];
    Four3IsReached(a, c, d);
    var net := Four3(a, c, d);
    InvIsConsistent(net);
    Goes(net, d.addr, d.id);
    Stops(net, c.addr, d.id);
    TakeStep(net, d.addr, c, a);
    CellTakes(d, c, NO_NODE, a);
    assert net[d.addr := WithSuccessor(net[d.addr], a)][a.addr := WithPredecessor(net[a.addr], d)] == Four4(a, c, d);
    StepIsReached(net, StabilizeOf(d.addr), Four4(a, c, d));
  }

  lemma Four5Write(a: Node, b: Node, c: Node, d: Node)
    requires {a.addr, b.addr, d.addr} !! {c.addr} && Pos(a) < Pos(b) < Pos(c) && a.addr != "" && b.addr !in {a.addr, d.addr}
    requires a.addr != d.addr
    ensures Four4(a, c, d)[b.addr := Cell(b, c, NO_NODE)][c.addr := WithPredecessor(Four4(a, c, d)[c.addr], b)]
            == Four5(a, b, c, d)
  {
  }

  /** b joins through c. */
  lemma Four5IsReached(a: Node, b: Node, c: Node, d: Node)
    requires Ascending([a, b, c, d])
    ensures Reached(Four5(a, b, c, d))
  {
    assert a == [a, b, c, d][0] && b == [a, b, c, d][1] && c == [a, b, c, d][2] && d == [a, b, c, d][3];
    Four4IsReached(a, c, d);
    var net := Four4(a, c, d);
    forall x | x in net ensures At(net, x) != Pos(b) && x != b.addr {
      assert x in {a.addr, c.addr, d.addr};
    }
    JoinThroughLone(net, c, b);
    Four5Write(a, b, c, d);
    StepIsReached(net, JoinOf(b, c.addr), Four5(a, b, c, d));
  }

  /** a stabilizes and takes b. */
  lemma Four6IsReached(a: Node, b: Node, c: Node, d: Node)
    requires Ascending([a, b, c, d])
    ensures Reached(Four6(a, b, c, d))
  {
    assert a == [a, b, c, d][0] && b == [a, b, c, d][1] && c == [a, b, c, d][2] && d == [a, b, c, d][3];
    Four5IsReached(a, b, c, d);
    var net := Four5(a, b, c, d);
    InvIsConsistent(net);
    Goes(net, a.addr, a.id);
    Stops(net, c.addr, a.id);
    TakeStep(net, a.addr, c, b);
    CellTakes(a, c, d, b);
    assert net[a.addr := WithSuccessor(net[a.addr], b)][b.addr := WithPredecessor(net[b.addr], a)] == Four6(a, b, c, d);
    StepIsReached(net, StabilizeOf(a.addr), Four6(a, b, c, d));
  }

  /** Three predecessor references to a node that has none. */
  lemma WalkOfThree(net: Net, b: Node, a: Node, d: Node)
    requires b.addr in net && a.addr in net && d.addr in net && a.addr != b.addr
    requires PredecessorAt(net, b.addr) == a && PredecessorAt(net, a.addr) == d
    requires a.addr != "" && d.addr != "" && PredecessorAt(net, d.addr).addr == ""
    ensures Follow(net, b, |net|) == End(d)
  {
    assert Follow(net, d, 0) == End(d);
    assert Follow(net, a, 1) == End(d);
    assert Follow(net, b, 2) == End(d);
    CardinalityMonotone({a.addr, b.addr}, net.Keys);
    FollowStaysStopped(net, b, 2, |net|);
    FollowIsStable(net, b, 2, |net|);
  }

  /** c, which still names itself, walks back to d and closes the ring. */
  lemma Four7IsReached(a: Node, b: Node, c: Node, d: Node)
    requires Ascending([a, b, c, d])
    ensures Reached(Four7(a, b, c, d))
  {
    assert a == [a, b, c, d][0] && b == [a, b, c, d][1] && c == [a, b, c, d][2] && d == [a, b, c, d][3];
    Four6IsReached(a, b, c, d);
    var net := Four6(a, b, c, d);
    InvIsConsistent(net);
    Stops(net, c.addr, c.id);
    CompareIsZeroForSameID(c, c);
    WalkOfThree(net, b, a, d);
    CellTakes(c, c, b, d);
    assert NotifyAt(SetSuccessorAt(net, c.addr, d), d.addr, c) == Four7(a, b, c, d);
    StepIsReached(net, StabilizeOf(c.addr), Four7(a, b, c, d));
  }

  /** x names y, the nearest of the other three. */
  lemma PlacedInFour(net: Net, x: Node, y: Node, z: Node, w: Node)
    requires Inv(net) && net.Keys == {x.addr, y.addr, z.addr, w.addr}
    requires net[x.addr].self == x && net[y.addr].self == y && net[z.addr].self == z && net[w.addr].self == w
    requires Succ(net[x.addr]) == y
    requires Dist(Pos(x), Pos(y)) <= Dist(Pos(x), Pos(z)) && Dist(Pos(x), Pos(y)) <= Dist(Pos(x), Pos(w))
    ensures Placed(net, x.addr)
  {
    assert Sound(net, x.addr);
    forall m | m in net ensures Dist(At(net, x.addr), At(net, y.addr)) <= Dist(At(net, x.addr), At(net, m)) {
      assert m in net.Keys;
    }
  }

  lemma FourIsSettled(a: Node, b: Node, c: Node, d: Node)
    requires Ascending([a, b, c, d]) && Inv(Four7(a, b, c, d))
    ensures SettledRing(Four7(a, b, c, d)) && |Four7(a, b, c, d)| == 4
  {
    assert a == [a, b, c, d][0] && b == [a, b, c, d][1] && c == [a, b, c, d][2] && d == [a, b, c, d][3];
    var net := Four7(a, b, c, d);
    InvIsConsistent(net);
    assert net.Keys == {a.addr, b.addr, c.addr, d.addr};
    assert |net.Keys| == 4;
    PlacedInFour(net, a, b, c, d);
    PlacedInFour(net, b, c, d, a);
    PlacedInFour(net, c, d, a, b);
    PlacedInFour(net, d, a, b, c);
    assert Greeted(net, a.addr) && Greeted(net, b.addr) && Greeted(net, c.addr) && Greeted(net, d.addr);
    MembersOfFour(net, a, b, c, d);
  }

  lemma MembersOfFour(net: Net, a: Node, b: Node, c: Node, d: Node)
    requires net.Keys == {a.addr, b.addr, c.addr, d.addr}
    ensures forall x :: x in net ==> x in {a.addr, b.addr, c.addr, d.addr}
  {
  }

  /** So settled rings of four exist and are reached, whatever the positions; and the next Stabilize of some
      member takes such a ring apart. */
  lemma SettledFourIsReachedAndLost(a: Node, b: Node, c: Node, d: Node)
    requires Ascending([a, b, c, d])
    ensures var net := Four7(a, b, c, d);
      Reached(net) && SettledRing(net) && |net| == 4
      && d.addr in net && Stabilize(net, d.addr).net != net && !CorrectRing(Stabilize(net, d.addr).net)
  {
    Four7IsReached(a, b, c, d);
    FourIsSettled(a, b, c, d);
    FourIsLost(a, b, c, d);
  }

  lemma FourIsLost(a: Node, b: Node, c: Node, d: Node)
    requires Ascending([a, b, c, d]) && Inv(Four7(a, b, c, d)) && SettledRing(Four7(a, b, c, d))
    requires |Four7(a, b, c, d)| == 4
    ensures var net := Four7(a, b, c, d);
      d.addr in net && Stabilize(net, d.addr).net != net && !CorrectRing(Stabilize(net, d.addr).net)
  {
    assert a == [a, b, c, d][0] && b == [a, b, c, d][1] && c == [a, b, c, d][2] && d == [a, b, c, d][3];
    var net := Four7(a, b, c, d);
    ContactIsPredecessor(net, d.addr);
    StabilizeTakesNearer(net, d.addr);
    StabilizePreserves(net, d.addr);
    var net' := Stabilize(net, d.addr).net;
    assert Succ(net'[d.addr]) == b && Succ(net[d.addr]) == a;
    assert Kept(net, net', a.addr) && Kept(net, net', b.addr) && Kept(net, net', d.addr);
    assert At(net', a.addr) == Pos(a) && At(net', b.addr) == Pos(b) && At(net', d.addr) == Pos(d);
    assert !Placed(net', d.addr);
  }

  /** Both failures happen: a run ends in a network where a node that hears of a nearer one does nothing, */
  lemma SomeProgressIsStopped() returns (net: Net, x: string)
    ensures Reached(net) && Consistent(net) && x in net && !IsRoot(net, x) && Stabilize(net, x).net == net
    ensures var s := Answered(Successor(net, x, net[x].self.id));
      s.addr in net && net[s.addr].predecessor != net[x].self
      && Between(At(net, x), Pos(net[s.addr].predecessor), Pos(s)) && Succ(net[x]) == s
  {
    var ns := AscendingExists();
    var s, l, p := ns[0], ns[1], ns[2];
    assert ns[..3] == [s, l, p] && Ascending([s, l, p]);
    assert [s, l, p][0] == s && [s, l, p][1] == l && [s, l, p][2] == p;
    WrapStopsProgress(s, l, p);
    net, x := Wrap3(s, l, p), l.addr;
  }

  /** and another one in a settled ring that a Stabilize breaks. */
  lemma SomeSettledRingIsLost() returns (net: Net, x: string)
    ensures Reached(net) && SettledRing(net) && |net| == 4 && x in net && !CorrectRing(Stabilize(net, x).net)
  {
    var ns := AscendingExists();
    assert ns == [ns[0], ns[1], ns[2], ns[3]];
    SettledFourIsReachedAndLost(ns[0], ns[1], ns[2], ns[3]);
    net, x := Four7(ns[0], ns[1], ns[2], ns[3]), ns[3].addr;
  }
}
