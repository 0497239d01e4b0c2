/** Bytes and the XOR algebra that the parity code relies on. */
module Bytes {
  type byte = bv8

  function Xor(a: byte, b: byte): byte {
    a ^ b
  }

  /** XOR of a whole column of bytes; the empty column gives zero. */
  function XorAll(column: seq<byte>): byte {
    if column == [] then 0 else Xor(XorAll(column[..|column| - 1]), column[|column| - 1])
  }

  lemma XorLaws(a: byte, b: byte, c: byte)
    ensures Xor(a, b) == Xor(b, a)
    ensures Xor(Xor(a, b), c) == Xor(a, Xor(b, c))
    ensures Xor(a, a) == 0 && Xor(a, 0) == a && Xor(0, a) == a
  {
  }

  /** One more byte in a column. */
  lemma XorAllExtend(column: seq<byte>, b: byte)
    ensures XorAll(column + [b]) == Xor(XorAll(column), b)
  {
    assert (column + [b])[..|column|] == column;
  }

  /** XOR-ing a column with a copy that has one entry zeroed leaves that entry. */
  lemma {:induction false} XorCancel(full: seq<byte>, holed: seq<byte>, hole: nat)
    requires |full| == |holed| && hole < |full|
    requires holed[hole] == 0
    requires forall i :: 0 <= i < |full| && i != hole ==> full[i] == holed[i]
    ensures Xor(XorAll(full), XorAll(holed)) == full[hole]
  {
    var n := |full| - 1;
    var a, b := XorAll(full[..n]), XorAll(holed[..n]);
    if hole == n {
      assert full[..n] == holed[..n];
      XorLaws(a, a, full[n]);
      XorLaws(full[n], a, a);
      XorLaws(a, 0, 0);
      XorLaws(full[n], 0, 0);
      XorLaws(a, full[n], a);
    } else {
      XorCancel(full[..n], holed[..n], hole);
      XorReorder(a, full[n], b);
    }
  }

  lemma XorReorder(a: byte, x: byte, b: byte)
    ensures Xor(Xor(a, x), Xor(b, x)) == Xor(a, b)
  {
  }
}
