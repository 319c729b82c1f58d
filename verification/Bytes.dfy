/** Bytes and the 20-byte identifiers that name nodes, users and files. */
module Bytes {

  newtype byte = x: int | 0 <= x < 256

  /** Identifier is Go's `[20]byte`. */
  type Identifier = s: seq<byte> | |s| == 20 witness seq(20, _ => 0 as byte)

  const ZERO_ID: Identifier := [0, 0, 0, 0, 0, 0, 0, 0, 0, 0, 0, 0, 0, 0, 0, 0, 0, 0, 0, 0]

  /** The number that `big.Int.SetBytes` reads from a byte string. */
  function BigEndian(bytes: seq<byte>): nat {
    if bytes == [] then 0 else BigEndian(bytes[..|bytes| - 1]) * 256 + bytes[|bytes| - 1] as int
  }

  lemma {:induction false} BigEndianInjective(a: seq<byte>, b: seq<byte>)
    requires |a| == |b|
    ensures BigEndian(a) == BigEndian(b) <==> a == b
  {
    if a != [] {
      var n := |a| - 1;
      BigEndianInjective(a[..n], b[..n]);
      assert a == a[..n] + [a[n]] && b == b[..n] + [b[n]];
    }
  }
}
