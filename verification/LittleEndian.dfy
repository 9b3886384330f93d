/** Fixed-width little-endian integers. */
module LittleEndian {
  import opened Varints

  function Bytes(v: nat, n: nat): (b: bytes)
    ensures |b| == n
  {
    if n == 0 then [] else [v % 256] + Bytes(v / 256, n - 1)
  }

  function Value(b: bytes): nat {
    if b == [] then 0 else b[0] + 256 * Value(b[1..])
  }

  function Pow256(n: nat): (p: nat)
    ensures p >= 1
  {
    if n == 0 then 1 else 256 * Pow256(n - 1)
  }

  /** Reading n bytes back yields the number exactly when it fits into them. */
  lemma {:induction false} ReadBack(v: nat, n: nat)
    ensures Value(Bytes(v, n)) == v <==> v < Pow256(n)
    ensures Value(Bytes(v, n)) < Pow256(n)
  {
    if n > 0 {
      ReadBack(v / 256, n - 1);
      assert Bytes(v, n)[1..] == Bytes(v / 256, n - 1);
    }
  }

  lemma {:induction false} ValueFits(b: bytes)
    ensures Value(b) < Pow256(|b|)
  {
    if b != [] { ValueFits(b[1..]); }
  }

  lemma {:induction false} BytesOfValue(b: bytes)
    ensures Bytes(Value(b), |b|) == b
  {
    if b != [] {
      BytesOfValue(b[1..]);
      assert Value(b) % 256 == b[0] && Value(b) / 256 == Value(b[1..]);
    }
  }

  lemma Widths()
    ensures Pow256(4) == TWO_32 && Pow256(8) == TWO_64
  {
    assert Pow256(2) == 0x1_0000;
    assert Pow256(4) == 0x1_0000 * Pow256(2);
    assert Pow256(6) == 0x1_0000 * Pow256(4);
    assert Pow256(8) == 0x1_0000 * Pow256(6);
  }
}
