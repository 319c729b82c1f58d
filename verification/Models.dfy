/** Ring positions, nodes and finger tables (models/models.go). */
module Models {
  import opened Bytes
  import opened Outcomes

  /** The number of finger slots, and also the number of ring positions. */
  const M: nat := 160

  type Position = p: nat | p < 160

  function KeyToID(key: Identifier): Position {
    BigEndian(key) % 160
  }

  function Sum(bytes: seq<byte>): nat {
    if bytes == [] then 0 else Sum(bytes[..|bytes| - 1]) + bytes[|bytes| - 1] as nat
  }

  /** Every power of 256 from the first on leaves 96 when divided by 160; q counts the whole turns. */
  lemma {:induction false} WholeTurns(bytes: seq<byte>) returns (q: nat)
    ensures BigEndian(bytes) * 256 == 96 * Sum(bytes) + 160 * q
  {
    if bytes == [] {
      q := 0;
    } else {
      var front, last := bytes[..|bytes| - 1], bytes[|bytes| - 1] as nat;
      var q' := WholeTurns(front);
      q := 153 * Sum(front) + 256 * q' + last;
    }
  }

  lemma SamePosition(x: nat, y: nat, q: nat)
    requires x == y + 160 * q
    ensures x % 160 == y % 160
  {
  }

  /** So a position comes from the last byte and the sum of the others. */
  lemma PositionFromBytes(key: Identifier)
    ensures KeyToID(key) == (96 * Sum(key[..19]) + key[19] as nat) % 160
  {
    var q := WholeTurns(key[..19]);
    SamePosition(BigEndian(key), 96 * Sum(key[..19]) + key[19] as nat, q);
  }

  /** A node as the ring names it. The public key plays no part in routing. */
  datatype Node = Node(id: Identifier, addr: string)

  /** Go's zero `models.Node{}`, told apart by its empty address. */
  const NO_NODE: Node := Node(ZERO_ID, "")

  function Pos(n: Node): Position {
    KeyToID(n.id)
  }

  /** Three-way comparison of two identifiers as numbers. */
  function Compare(n: Node, n': Node): int {
    var a, b := BigEndian(n.id), BigEndian(n'.id);
    if a < b then -1 else if a == b then 0 else 1
  }

  lemma CompareIsZeroForSameID(n: Node, n': Node)
    ensures Compare(n, n') == 0 <==> n.id == n'.id
    ensures Compare(n, n') == -Compare(n', n)
  {
    BigEndianInjective(n.id, n'.id);
  }

  /** Low is excluded and High is included. */
  datatype Interval = Interval(low: Position, high: Position)

  function NewInterval(start: Node, end: Node): Interval {
    Interval(Pos(start), Pos(end))
  }

  datatype Finger = Finger(i: Position, interval: Interval, successor: Node)

  /** Go's zero `Finger{}`. */
  const NO_FINGER: Finger := Finger(0, Interval(0, 0), Node(ZERO_ID, ""))

  type Slots = s: seq<Finger> | |s| == 160 witness seq(160, _ => NO_FINGER)

  function NoSlots(): Slots { seq(M, _ => NO_FINGER) }

  /** The finger that `SetIth` writes for a node and a successor. */
  function FingerFor(self: Node, successor: Node): Finger {
    Finger(Pos(self), NewInterval(self, successor), successor)
  }

  class FingerTable {
    const table: array<Finger>

    ghost predicate Valid() {
      table.Length == M
    }

    ghost function View(): Slots
      requires Valid()
      reads table
    {
      table[..]
    }

    constructor ()
      ensures Valid() && fresh(table)
      ensures View() == NoSlots()
    {
      table := new Finger[M](_ => NO_FINGER);
    }

    function GetIth(i: nat): (r: Result<Finger>)
      requires Valid()
      reads table
      ensures r.Success? <==> 1 <= i <= M
      ensures r.Success? ==> r.value == View()[i - 1]
    {
      if i < 1 || i > M then Failure(FingerOutOfRange) else Success(table[i - 1])
    }

    method SetIth(i: nat, interval: Interval, successor: Node, self: Node) returns (r: Result<()>)
      requires Valid()
      modifies table
      ensures r.Success? <==> 1 <= i <= M
      ensures View() == if r.Success? then old(View())[i - 1 := Finger(Pos(self), interval, successor)]
                        else old(View())
    {
      if i < 1 || i > M {
        return Failure(FingerOutOfRange);
      }
      table[i - 1] := Finger(Pos(self), interval, successor);
      return Success(());
    }
  }
}
