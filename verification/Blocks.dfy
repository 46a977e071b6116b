/** Flat buffers made of equally wide blocks, the storage scheme of the repository's row-major matrices and of
    its per-matrix pointer arrays, and the range of its 32-bit counters. */
module Blocks {

  const INT32_MAX: int := 0x7FFF_FFFF

  /** A conversion to a 32-bit integer: the low word, in two's complement. */
  function ToInt32(v: int): int {
    (v + 0x8000_0000) % 0x1_0000_0000 - 0x8000_0000
  }

  lemma ToInt32Range(v: int)
    ensures -0x8000_0000 <= ToInt32(v) <= INT32_MAX
    ensures ToInt32(v) == v <==> -0x8000_0000 <= v <= INT32_MAX
    ensures (ToInt32(v) - v) % 0x1_0000_0000 == 0
  {
  }

  /** The numbers below `n` survive the conversion exactly when there are at most 2^31 of them. */
  lemma ToInt32ExactIff(n: nat)
    ensures (forall i: nat | i < n :: ToInt32(i) == i) <==> n <= 0x8000_0000
  {
    if n > 0x8000_0000 {
      assert ToInt32(0x8000_0000) != 0x8000_0000;
    }
  }

  function Flatten<T>(blocks: seq<seq<T>>): seq<T> {
    if blocks == [] then [] else Flatten(blocks[..|blocks| - 1]) + blocks[|blocks| - 1]
  }

  ghost predicate Uniform<T>(blocks: seq<seq<T>>, width: nat) {
    forall i | 0 <= i < |blocks| :: |blocks[i]| == width
  }

  lemma MulStep(m: nat, w: nat)
    ensures (m + 1) * w == m * w + w
  {
  }

  lemma MulSum(a: nat, b: nat, w: nat)
    ensures (a + b) * w == a * w + b * w
  {
  }

  lemma MulMonotone(a: nat, b: nat, w: nat)
    requires a <= b
    ensures 0 <= a * w <= b * w
  {
  }

  lemma BlockIndexInRange(b: nat, k: nat, n: nat, w: nat)
    requires b < n && k < w
    ensures 0 <= b * w <= b * w + k < b * w + w <= n * w
  {
    MulStep(b, w);
    MulMonotone(0, b, w);
    MulMonotone(b + 1, n, w);
  }

  lemma {:induction false} FlattenLength<T>(blocks: seq<seq<T>>, w: nat)
    requires Uniform(blocks, w)
    ensures |Flatten(blocks)| == |blocks| * w
  {
    if blocks != [] {
      FlattenLength(blocks[..|blocks| - 1], w);
      MulStep(|blocks| - 1, w);
    }
  }

  /** The buffer cut at block `b` is block `b`. */
  lemma {:induction false} FlattenAt<T>(blocks: seq<seq<T>>, w: nat, b: nat, k: nat)
    requires Uniform(blocks, w) && b < |blocks| && k < w
    ensures |Flatten(blocks)| == |blocks| * w
    ensures 0 <= b * w + k < |Flatten(blocks)|
    ensures Flatten(blocks)[b * w + k] == blocks[b][k]
  {
    FlattenLength(blocks, w);
    BlockIndexInRange(b, k, |blocks|, w);
    var init := blocks[..|blocks| - 1];
    FlattenLength(init, w);
    if b == |blocks| - 1 {
    } else {
      FlattenAt(init, w, b, k);
    }
  }

  /** One more block extends the buffer by it. */
  lemma FlattenTake<T>(blocks: seq<seq<T>>, i: nat)
    requires i < |blocks|
    ensures Flatten(blocks[..i + 1]) == Flatten(blocks[..i]) + blocks[i]
  {
    assert blocks[..i + 1][..i] == blocks[..i];
  }
}
