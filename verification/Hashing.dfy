/** SHA3-256 as an unknown function on byte strings (FIPS 202, section 6.1): every result below holds for
    any function put in its place. */
module Hashing {
  newtype byte = x: int | 0 <= x < 256

  type Bytes = seq<byte>

  const HASH_SIZE: nat := 32

  /** Every output is 32 bytes long. */
  ghost predicate FixedSize(hash: Bytes -> Bytes) {
    forall x :: |hash(x)| == HASH_SIZE
  }

  /** No two of these inputs collide. Asked only of the inputs that really are hashed: no function from all
      byte strings to 32 bytes is injective, so a global demand could never be met. */
  ghost predicate CollisionFree<X(!new), Y(!new)>(hash: X -> Y, inputs: iset<X>) {
    forall x, y {:trigger NoCollision(hash, x, y)} :: x in inputs && y in inputs ==> NoCollision(hash, x, y)
  }

  ghost predicate NoCollision<X, Y(!new)>(hash: X -> Y, x: X, y: X) {
    hash(x) == hash(y) ==> x == y
  }

  lemma FewerInputs<X(!new), Y(!new)>(hash: X -> Y, all: iset<X>, some: iset<X>)
    requires CollisionFree(hash, all) && some <= all
    ensures CollisionFree(hash, some)
  {
  }

  /** The bytes of a series of writes. */
  function Concat(pieces: seq<Bytes>): Bytes {
    if pieces == [] then [] else Concat(pieces[..|pieces| - 1]) + pieces[|pieces| - 1]
  }

  lemma ConcatStep(pieces: seq<Bytes>, i: nat)
    requires i < |pieces|
    ensures Concat(pieces[..i + 1]) == Concat(pieces[..i]) + pieces[i]
  {
    assert pieces[..i + 1][..i] == pieces[..i];
  }

  lemma {:induction false} ConcatPrefix(pieces: seq<Bytes>, i: nat)
    requires i <= |pieces|
    ensures |Concat(pieces[..i])| <= |Concat(pieces)|
    decreases |pieces| - i
  {
    if i < |pieces| {
      ConcatStep(pieces, i);
      ConcatPrefix(pieces, i + 1);
    } else {
      assert pieces[..i] == pieces;
    }
  }
}
