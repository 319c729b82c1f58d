/** Lookup on correct rings: where it stops, and how it compares with the plain walk along slot 1. */
module ChordRing {
  import opened Bytes
  import opened Outcomes
  import opened Models
  import opened Ring
  import opened ChordPeer

  ghost predicate DistinctPositions(net: Net) {
    forall a, b {:trigger At(net, a), At(net, b)} :: a in net && b in net && At(net, a) == At(net, b) ==> a == b
  }

  /** b is the member met first going clockwise from a (a itself when it is alone). */
  ghost predicate IsNext(net: Net, a: string, b: string)
    requires a in net
  {
    b in net && forall m {:trigger At(net, m)} :: m in net ==> Dist(At(net, a), At(net, b)) <= Dist(At(net, a), At(net, m))
  }

  /** Slot 1 of a is the next member clockwise; its other slots hold any members or nothing. */
  ghost predicate Placed(net: Net, a: string)
    requires a in net
  {
    && IsNext(net, a, Succ(net[a]).addr)
    && net[a].slots[0] == FingerFor(net[a].self, Succ(net[a]))
    && forall i :: 1 <= i < M ==> net[a].slots[i].successor.addr == "" || net[a].slots[i].successor.addr in net
  }

  ghost predicate CorrectRing(net: Net) {
    && Consistent(net)
    && DistinctPositions(net)
    && forall a {:trigger Placed(net, a)} :: a in net ==> Placed(net, a)
  }

  /** n is the member with k in (n, succ n]. */
  ghost predicate Owns(net: Net, n: Node, k: Position) {
    && n.addr in net && net[n.addr].self == n
    && Succ(net[n.addr]).addr in net
    && Dist(Pos(n), k) <= Dist(Pos(n), At(net, Succ(net[n.addr]).addr))
  }

  lemma OwnerIsUnique(net: Net, n: Node, m: Node, k: Position)
    requires CorrectRing(net) && Owns(net, n, k) && Owns(net, m, k)
    ensures n == m
  {
    assert Placed(net, n.addr) && Placed(net, m.addr);
    assert At(net, n.addr) == Pos(n) && At(net, m.addr) == Pos(m);
  }

  /** Every lookup succeeds at the one member n with the key in (n, succ n], from whichever member it starts. */
  lemma {:induction false} LookupFindsOwner(net: Net, a: string, id: Identifier)
    requires CorrectRing(net) && a in net
    ensures Successor(net, a, id).Success?
    ensures Owns(net, Successor(net, a, id).value, KeyToID(id))
    decreases Dist(At(net, a), KeyToID(id))
  {
    assert Placed(net, a) && Grounded(net, a);
    var n := ClosestPreceding(net[a], id);
    if n == net[a].self {
      assert !Precedes(net[a], 0, id);
    } else {
      LookupFindsOwner(net, n.addr, id);
    }
  }

  lemma LookupIgnoresStart(net: Net, a: string, b: string, id: Identifier)
    requires CorrectRing(net) && a in net && b in net
    ensures Successor(net, a, id) == Successor(net, b, id)
  {
    LookupFindsOwner(net, a, id);
    LookupFindsOwner(net, b, id);
    OwnerIsUnique(net, Successor(net, a, id).value, Successor(net, b, id).value, KeyToID(id));
  }

  lemma OnlyMember(net: Net, a: string, b: string)
    requires |net| == 1 && a in net && b in net
    ensures a == b
  {
    assert {a, b} <= net.Keys && |net.Keys| == 1;
    CardinalityMonotone({a, b}, net.Keys);
  }

  /** n is the first member at or after position k, which the comments and the design call the node
      responsible for a key at k. */
  ghost predicate Responsible(net: Net, n: Node, k: Position) {
    && n.addr in net && net[n.addr].self == n
    && forall m {:trigger At(net, m)} :: m in net ==> Offset(k, Pos(n)) <= Offset(k, At(net, m))
  }

  /** The responsible node is slot 1 of the node that a lookup returns. */
  lemma ResponsibleIsNext(net: Net, a: string, id: Identifier)
    requires CorrectRing(net) && a in net
    ensures var n := Answered(Successor(net, a, id));
      n.addr in net && Responsible(net, Succ(net[n.addr]), KeyToID(id))
  {
    LookupFindsOwner(net, a, id);
    var n := Successor(net, a, id).value;
    assert Placed(net, n.addr) && Grounded(net, n.addr) && At(net, n.addr) == Pos(n);
    var s := Succ(net[n.addr]);
    forall m | m in net ensures Offset(KeyToID(id), Pos(s)) <= Offset(KeyToID(id), At(net, m)) {
      FirstFromKey(Pos(n), Pos(s), KeyToID(id), At(net, m));
    }
  }

  lemma ResponsibleIsUnique(net: Net, n: Node, m: Node, k: Position)
    requires DistinctPositions(net) && Responsible(net, n, k) && Responsible(net, m, k)
    ensures n == m
  {
    assert At(net, n.addr) == Pos(n) && At(net, m.addr) == Pos(m);
  }

  /** A lookup itself returns the responsible node exactly on a ring of one. */
  lemma LookupIsResponsibleIff(net: Net, a: string, id: Identifier)
    requires CorrectRing(net) && a in net
    ensures Responsible(net, Answered(Successor(net, a, id)), KeyToID(id)) <==> |net| == 1
  {
    LookupFindsOwner(net, a, id);
    ResponsibleIsNext(net, a, id);
    var n := Successor(net, a, id).value;
    var s := Succ(net[n.addr]);
    assert Placed(net, n.addr) && Grounded(net, n.addr);
    if |net| == 1 {
      OnlyMember(net, n.addr, s.addr);
    } else if Responsible(net, n, KeyToID(id)) {
      ResponsibleIsUnique(net, n, s, KeyToID(id));
      OtherMember(net, n.addr);
    }
  }

  lemma OtherMember(net: Net, a: string)
    requires CorrectRing(net) && a in net && |net| != 1
    ensures Succ(net[a]).addr != a
  {
    assert Placed(net, a);
    if net.Keys <= {a} {
      CardinalityMonotone(net.Keys, {a});
      CardinalityMonotone({a}, net.Keys);
    } else {
      var m :| m in net && m != a;
      assert At(net, m) != At(net, a);
    }
  }

  // ---- The plain walk ----

  datatype Walk = Walk(stop: Node, hops: nat)

  /** Follow slot 1 for as long as it stays strictly before the key. */
  ghost function PlainWalk(net: Net, a: string, k: Position): Walk
    requires CorrectRing(net) && a in net
    decreases Dist(At(net, a), k)
  {
    assert Placed(net, a) && Grounded(net, a);
    var s := Succ(net[a]);
    if Dist(At(net, a), Pos(s)) < Dist(At(net, a), k) then
      assert Between(At(net, a), Pos(s), k);
      var w := PlainWalk(net, s.addr, k);
      Walk(w.stop, w.hops + 1)
    else Walk(net[a].self, 0)
  }

  /** The members strictly between a and k. */
  ghost function Ahead(net: Net, a: string, k: Position): set<string>
    requires a in net
  {
    set m | m in net && Dist(At(net, a), At(net, m)) < Dist(At(net, a), k)
  }

  /** Taking slot 1 removes exactly its node from the members ahead. */
  lemma AheadOfNext(net: Net, a: string, s: string, k: Position)
    requires DistinctPositions(net) && a in net && IsNext(net, a, s)
    requires Dist(At(net, a), At(net, s)) < Dist(At(net, a), k)
    ensures Dist(At(net, s), k) == Dist(At(net, a), k) - Dist(At(net, a), At(net, s))
    ensures Ahead(net, a, k) == Ahead(net, s, k) + {s} && s !in Ahead(net, s, k)
  {
    assert Between(At(net, a), At(net, s), k);
    forall m | m in net ensures m in Ahead(net, a, k) <==> m in Ahead(net, s, k) + {s} {
      assert Dist(At(net, a), At(net, s)) <= Dist(At(net, a), At(net, m));
    }
  }

  lemma {:induction false} PlainWalkVisitsAllAhead(net: Net, a: string, k: Position)
    requires CorrectRing(net) && a in net
    ensures PlainWalk(net, a, k).hops == |Ahead(net, a, k)|
    ensures Owns(net, PlainWalk(net, a, k).stop, k)
    decreases Dist(At(net, a), k)
  {
    var s := Succ(net[a]);
    assert Placed(net, a) && Grounded(net, a);
    if Dist(At(net, a), Pos(s)) < Dist(At(net, a), k) {
      AheadOfNext(net, a, s.addr, k);
      PlainWalkVisitsAllAhead(net, s.addr, k);
    } else {
      assert Ahead(net, a, k) == {};
    }
  }

  lemma FewerAhead(net: Net, a: string, b: string, k: Position)
    requires a in net && b in net && Between(At(net, a), At(net, b), k)
    ensures |Ahead(net, b, k)| < |Ahead(net, a, k)|
  {
    var here, there := Ahead(net, a, k), Ahead(net, b, k);
    assert there <= here - {b} && b in here;
    CardinalityMonotone(there, here - {b});
  }

  lemma {:induction false} FingersSkipAhead(net: Net, a: string, id: Identifier)
    requires CorrectRing(net) && a in net
    ensures Hops(net, a, id) <= |Ahead(net, a, KeyToID(id))|
    decreases Dist(At(net, a), KeyToID(id))
  {
    assert Placed(net, a) && Grounded(net, a);
    var n := ClosestPreceding(net[a], id);
    if n != net[a].self {
      FingersSkipAhead(net, n.addr, id);
      FewerAhead(net, a, n.addr, KeyToID(id));
    }
  }

  lemma CardinalityMonotone<T>(s: set<T>, t: set<T>)
    requires s <= t
    ensures |s| <= |t|
  {
    assert t == s + (t - s);
  }

  /** A finger can only save hops: with any member fingers the lookup stops where the plain walk stops,
      after at most as many hops. */
  lemma FingersRefinePlainWalk(net: Net, a: string, id: Identifier)
    requires CorrectRing(net) && a in net
    ensures Successor(net, a, id) == Success(PlainWalk(net, a, KeyToID(id)).stop)
    ensures Hops(net, a, id) <= PlainWalk(net, a, KeyToID(id)).hops
  {
    LookupFindsOwner(net, a, id);
    PlainWalkVisitsAllAhead(net, a, KeyToID(id));
    FingersSkipAhead(net, a, id);
    OwnerIsUnique(net, Successor(net, a, id).value, PlainWalk(net, a, KeyToID(id)).stop, KeyToID(id));
  }

  // ---- The intervals of slot 1 ----

  predicate Covers(i: Interval, k: Position) {
    Dist(i.low, k) <= Dist(i.low, i.high)
  }

  /** The positions of an interval; equal ends mean the whole ring. */
  function Positions(i: Interval): set<Position> {
    set k: Position | 0 <= k < 160 && Covers(i, k)
  }

  function Length(i: Interval): nat {
    Dist(i.low, i.high)
  }

  ghost function Share(net: Net, a: string): Interval
    requires a in net
  {
    net[a].slots[0].interval
  }

  /** Every position lies in the slot-1 interval of exactly one member. */
  lemma IntervalsTileTheRing(net: Net, k: Position) returns (owner: string)
    requires CorrectRing(net) && net != map[]
    ensures forall a :: a in net ==> (Covers(Share(net, a), k) <==> a == owner)
    ensures owner in net
  {
    var start :| start in net;
    PlainWalkVisitsAllAhead(net, start, k);
    var n := PlainWalk(net, start, k).stop;
    owner := n.addr;
    forall a | a in net ensures Covers(Share(net, a), k) <==> a == owner {
      assert Placed(net, a) && Grounded(net, a);
      assert Covers(Share(net, a), k) <==> Owns(net, net[a].self, k);
      if Covers(Share(net, a), k) {
        OwnerIsUnique(net, net[a].self, n, k);
      }
    }
  }

  lemma {:induction false} ArcSize(low: Position, d: nat)
    requires d <= 160
    ensures |set k: Position | 0 <= k < 160 && Dist(low, k) <= d| == d
  {
    var arc := set k: Position | 0 <= k < 160 && Dist(low, k) <= d;
    if d == 0 {
      assert arc == {};
    } else {
      ArcSize(low, d - 1);
      var last: Position := (low + d) % 160;
      assert Dist(low, last) == d;
      assert arc == (set k: Position | 0 <= k < 160 && Dist(low, k) <= d - 1) + {last};
    }
  }

  ghost function SumOfLengths(net: Net, members: set<string>): nat
    requires members <= net.Keys
    decreases |members|
  {
    if members == {} then 0
    else var a :| a in members; Length(Share(net, a)) + SumOfLengths(net, members - {a})
  }

  ghost function Union(net: Net, members: set<string>): set<Position>
    requires members <= net.Keys
  {
    set a, k: Position | a in members && 0 <= k < 160 && k in Positions(Share(net, a)) :: k
  }

  lemma {:induction false} SumIsSizeOfUnion(net: Net, members: set<string>)
    requires CorrectRing(net) && members <= net.Keys
    ensures SumOfLengths(net, members) == |Union(net, members)|
    decreases |members|
  {
    if members == {} {
      assert Union(net, members) == {};
    } else {
      var a :| a in members && SumOfLengths(net, members) == Length(Share(net, a)) + SumOfLengths(net, members - {a});
      SumIsSizeOfUnion(net, members - {a});
      var mine, rest := Positions(Share(net, a)), Union(net, members - {a});
      ArcSize(Share(net, a).low, Length(Share(net, a)));
      assert mine == set k: Position | 0 <= k < 160 && Dist(Share(net, a).low, k) <= Length(Share(net, a));
      forall k | k in mine ensures k !in rest {
        var owner := IntervalsTileTheRing(net, k);
      }
      assert Union(net, members) == mine + rest;
    }
  }

  /** The lengths of all slot-1 intervals add up to the whole ring. */
  lemma LengthsSumToRing(net: Net)
    requires CorrectRing(net) && net != map[]
    ensures SumOfLengths(net, net.Keys) == 160
  {
    SumIsSizeOfUnion(net, net.Keys);
    ArcSize(0, 160);
    var all := set k: Position | 0 <= k < 160 && Dist(0, k) <= 160;
    forall k: Position | 0 <= k < 160 ensures k in Union(net, net.Keys) {
      var owner := IntervalsTileTheRing(net, k);
      assert k in Positions(Share(net, owner));
    }
    assert Union(net, net.Keys) == all;
  }
}
