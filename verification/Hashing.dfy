/**
 An arbitrary hash on sequences, and collisions among explicitly listed inputs.

 The hash is a parameter of every theorem and nothing is assumed of it. On a finite field some
 collision always exists somewhere, so the theorems speak of collisions within a transcript: the
 finite list of inputs that the parties actually hash. `FindCollision` extracts the pair.
 */
module Hashing {
  import opened Machine

  type Query<F> = seq<F>
  type Hash<!F> = Query<F> -> F

  ghost predicate CollisionFree<F>(H: Hash<F>, transcript: seq<Query<F>>)
  {
    forall x, y {:trigger Separated(H, x, y)} :: x in transcript && y in transcript ==> Separated(H, x, y)
  }

  /** The two inputs are no collision. */
  ghost predicate Separated<F>(H: Hash<F>, x: Query<F>, y: Query<F>)
  {
    H(x) == H(y) ==> x == y
  }

  function FindPartner<F(==)>(H: Hash<F>, x: Query<F>, transcript: seq<Query<F>>): (y: Option<Query<F>>)
    ensures y.Some? ==> y.value in transcript && y.value != x && H(y.value) == H(x)
    ensures y.None? ==> forall z :: z in transcript && H(z) == H(x) ==> z == x
  {
    if transcript == [] then None
    else if transcript[0] != x && H(transcript[0]) == H(x) then Some(transcript[0])
    else FindPartner(H, x, transcript[1..])
  }

  /** Two different inputs of the transcript with one hash, if there are any. */
  function FindCollision<F(==)>(H: Hash<F>, transcript: seq<Query<F>>): (c: Option<(Query<F>, Query<F>)>)
    ensures c.Some? ==>
      && c.value.0 in transcript && c.value.1 in transcript
      && c.value.0 != c.value.1 && H(c.value.0) == H(c.value.1)
    ensures c.None? <==> CollisionFree(H, transcript)
  {
    if transcript == [] then None
    else
      var y := FindPartner(H, transcript[0], transcript[1..]);
      if y.Some? then
        assert !Separated(H, transcript[0], y.value);
        Some((transcript[0], y.value))
      else
        var c := FindCollision(H, transcript[1..]);
        CollisionFreeCons(H, transcript);
        c
  }

  lemma CollisionFreeCons<F>(H: Hash<F>, transcript: seq<Query<F>>)
    requires transcript != []
    requires forall z :: z in transcript[1..] && H(z) == H(transcript[0]) ==> z == transcript[0]
    ensures CollisionFree(H, transcript) <==> CollisionFree(H, transcript[1..])
  {
    assert transcript == [transcript[0]] + transcript[1..];
  }

  /** A part of a collision-free transcript is collision-free. */
  lemma CollisionFreePart<F>(H: Hash<F>, whole: seq<Query<F>>, part: seq<Query<F>>)
    requires CollisionFree(H, whole) && forall x :: x in part ==> x in whole
    ensures CollisionFree(H, part)
  {
  }

  lemma SameInput<F>(H: Hash<F>, transcript: seq<Query<F>>, x: Query<F>, y: Query<F>)
    requires CollisionFree(H, transcript) && x in transcript && y in transcript && H(x) == H(y)
    ensures x == y
  {
    assert Separated(H, x, y);
  }
}
