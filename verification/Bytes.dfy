/** Bytes, byte strings and optional values shared by every component. */
module Bytes {
  type byte = x: int | 0 <= x < 256

  type bytes = seq<byte>

  datatype Option<+T> = None | Some(value: T)

  /** The text t stands in b at index i. */
  predicate At(b: bytes, i: nat, t: bytes) {
    i + |t| <= |b| && b[i..i + |t|] == t
  }

  /** Concatenated texts stand one after the other. */
  lemma AtConcat(b: bytes, i: nat, x: bytes, y: bytes)
    ensures At(b, i, x + y) <==> At(b, i, x) && At(b, i + |x|, y)
  {
    var n := i + |x| + |y|;
    if n <= |b| {
      assert b[i..n] == b[i..i + |x|] + b[i + |x|..n];
      if At(b, i, x + y) {
        assert b[i..i + |x|] == (x + y)[..|x|] == x;
        assert b[i + |x|..n] == (x + y)[|x|..] == y;
      }
    }
  }

  lemma AtOne(b: bytes, i: nat, c: byte)
    ensures At(b, i, [c]) <==> i < |b| && b[i] == c
  {
    if i < |b| {
      assert b[i..i + 1] == [b[i]];
    }
  }

  lemma AtByte(b: bytes, i: nat, t: bytes, k: nat)
    requires At(b, i, t) && k < |t|
    ensures b[i + k] == t[k]
  {
    assert b[i..i + |t|][k] == t[k];
  }

  lemma AtSlice(b: bytes, i: nat, j: nat)
    requires i <= j <= |b|
    ensures At(b, i, b[i..j])
  {
  }
}
