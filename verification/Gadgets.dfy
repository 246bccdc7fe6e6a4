/**
 Circuit templates as relations over their signals, in arithmetic modulo the BN254 scalar prime.
 Sources: circuits/shared/zk-origin/{merkle,comparators,validators}.circom.

 Every `<==` and `===` is a conjunct; a signal assigned only by `<--` (the `inv` of `ZKIsZero`) is
 unconstrained. Primality of the modulus is not proved; where soundness needs it, "no zero
 divisors" is an explicit hypothesis.
 */
module Gadgets {
  import opened Machine
  import opened Positional
  import opened Protocol
  import opened Hashing
  import opened Merkle

  function Add(a: Field, b: Field): Field
  {
    (a + b) % MODULUS
  }

  function Sub(a: Field, b: Field): Field
  {
    (a - b) % MODULUS
  }

  function Mul(a: Field, b: Field): Field
  {
    Times(a, b) % MODULUS
  }

  /** The integer product as repeated addition, so that naming it brings no nonlinear term into a proof. */
  function Times(a: nat, b: nat): nat
  {
    if a == 0 then 0 else b + Times(a - 1, b)
  }

  lemma {:induction false} TimesIsProduct(a: nat, b: nat)
    ensures Times(a, b) == a * b
  {
    if a == 0 {
    } else {
      TimesIsProduct(a - 1, b);
    }
  }

  lemma MulIsProduct(a: Field, b: Field)
    ensures Mul(a, b) == (a * b) % MODULUS
  {
    TimesIsProduct(a, b);
  }

  /** What primality of the modulus is needed for. */
  ghost predicate NoZeroDivisors()
  {
    forall a: Field, b: Field :: Mul(a, b) == 0 ==> a == 0 || b == 0
  }

  // ---------- templates ----------

  ghost predicate IsBinary(value: Field, valid: Field)
  {
    Mul(value, Sub(value, 1)) == 0 && valid == 1
  }

  ghost predicate ZKMux1(c0: Field, c1: Field, s: Field, out: Field)
  {
    Mul(s, Sub(s, 1)) == 0 && out == Add(c0, Mul(s, Sub(c1, c0)))
  }

  ghost predicate ZKIsZero(x: Field, out: Field, inv: Field)
  {
    out == Sub(1, Mul(x, inv)) && Mul(x, out) == 0
  }

  ghost predicate ZKIsEqual(in0: Field, in1: Field, out: Field, inv: Field)
  {
    ZKIsZero(Sub(in1, in0), out, inv)
  }

  /** The internal signals of `MerkleProofVerifier`. */
  datatype MerkleSignals = MerkleSignals(levelHashes: seq<Field>, lefts: seq<Field>, rights: seq<Field>, inv: Field)

  ghost predicate LevelConstraints(H: Hash<Field>, path: seq<Field>, indices: seq<Field>, s: MerkleSignals, i: nat)
    requires i < |path| == |indices| == |s.lefts| == |s.rights| && |s.levelHashes| == |path| + 1
  {
    && IsBinary(indices[i], 1)
    && ZKMux1(s.levelHashes[i], path[i], indices[i], s.lefts[i])
    && ZKMux1(path[i], s.levelHashes[i], indices[i], s.rights[i])
    && s.levelHashes[i + 1] == H([s.lefts[i], s.rights[i]])
  }

  ghost predicate MerkleProofVerifier(H: Hash<Field>, depth: nat, leaf: Field, root: Field,
                                      path: seq<Field>, indices: seq<Field>, valid: Field, s: MerkleSignals)
  {
    && |path| == |indices| == |s.lefts| == |s.rights| == depth && |s.levelHashes| == depth + 1
    && s.levelHashes[0] == leaf
    && (forall i :: 0 <= i < depth ==> LevelConstraints(H, path, indices, s, i))
    && ZKIsEqual(s.levelHashes[depth], root, valid, s.inv)
  }

  // ---------- what the templates mean ----------

  lemma BinaryMeansBit(v: Field)
    requires NoZeroDivisors() && Mul(v, Sub(v, 1)) == 0
    ensures v == 0 || v == 1
  {
  }

  lemma BitIsBinary(v: Field)
    requires v == 0 || v == 1
    ensures Mul(v, Sub(v, 1)) == 0
  {
  }

  lemma SelectedByBit(c0: Field, c1: Field, s: Field)
    requires s == 0 || s == 1
    ensures Add(c0, Mul(s, Sub(c1, c0))) == if s == 0 then c0 else c1
  {
    MulZero(Sub(c1, c0));
    AddDifference(c0, c1);
  }

  lemma AddDifference(a: Field, b: Field)
    ensures Add(a, Sub(b, a)) == b && Add(a, 0) == a
  {
  }

  lemma DifferenceIsZero(a: Field, b: Field)
    ensures Sub(b, a) == 0 <==> a == b
  {
  }

  lemma MulZero(x: Field)
    ensures Mul(0, x) == 0 && Mul(x, 0) == 0 && Mul(x, 1) == x && Mul(1, x) == x
  {
    MulIsProduct(x, 0);
    MulIsProduct(x, 1);
    MulIsProduct(1, x);
  }

  /** Equality testing is exact: the free `inv` signal gives a prover no choice of output. */
  lemma EqualityOutput(a: Field, b: Field, out: Field, inv: Field)
    requires NoZeroDivisors() && ZKIsEqual(a, b, out, inv)
    ensures out == if a == b then 1 else 0
  {
    DifferenceIsZero(a, b);
    MulZero(inv);
  }

  lemma LevelIsFoldStep(H: Hash<Field>, path: seq<Field>, indices: seq<Field>, s: MerkleSignals, i: nat)
    requires i < |path| == |indices| == |s.lefts| == |s.rights| && |s.levelHashes| == |path| + 1
    requires NoZeroDivisors() && LevelConstraints(H, path, indices, s, i)
    ensures indices[i] == 0 || indices[i] == 1
    ensures s.levelHashes[i + 1] == H(Ordered(s.levelHashes[i], path[i], indices[i]))
  {
    BinaryMeansBit(indices[i]);
    SelectedByBit(s.levelHashes[i], path[i], indices[i]);
    SelectedByBit(path[i], s.levelHashes[i], indices[i]);
  }

  lemma {:induction false} LevelHashesFold(H: Hash<Field>, path: seq<Field>, indices: seq<Field>, s: MerkleSignals,
                                           i: nat)
    requires i <= |path| == |indices| == |s.lefts| == |s.rights| && |s.levelHashes| == |path| + 1
    requires NoZeroDivisors() && forall k :: 0 <= k < |path| ==> LevelConstraints(H, path, indices, s, k)
    ensures s.levelHashes[|path|] == Fold(H, s.levelHashes[i], path[i..], indices[i..])
    ensures Binary(indices[i..])
    decreases |path| - i
  {
    if i == |path| {
    } else {
      LevelIsFoldStep(H, path, indices, s, i);
      LevelHashesFold(H, path, indices, s, i + 1);
      assert path[i..] == [path[i]] + path[i + 1..] && indices[i..] == [indices[i]] + indices[i + 1..];
      FoldStep(H, s.levelHashes[i], path[i], path[i + 1..], indices[i], indices[i + 1..]);
    }
  }

  /** Soundness: in every satisfying assignment the indices are bits and `valid` compares the fold with the root. */
  lemma VerifierSound(H: Hash<Field>, depth: nat, leaf: Field, root: Field, path: seq<Field>, indices: seq<Field>,
                      valid: Field, s: MerkleSignals)
    requires NoZeroDivisors() && MerkleProofVerifier(H, depth, leaf, root, path, indices, valid, s)
    ensures |path| == |indices| == depth && Binary(indices)
    ensures valid == if Fold(H, leaf, path, indices) == root then 1 else 0
  {
    LevelHashesFold(H, path, indices, s, 0);
    assert path[0..] == path && indices[0..] == indices;
    EqualityOutput(s.levelHashes[depth], root, valid, s.inv);
  }

  /** The honest assignment of the internal signals, for any choice of the free one. */
  function Honest(H: Hash<Field>, leaf: Field, path: seq<Field>, indices: seq<Field>, inv: Field): (s: MerkleSignals)
    requires |path| == |indices|
    ensures |s.lefts| == |s.rights| == |path| && |s.levelHashes| == |path| + 1 && s.levelHashes[0] == leaf &&
      s.inv == inv
    decreases |path|
  {
    if path == [] then MerkleSignals([leaf], [], [], inv)
    else
      var q := Ordered(leaf, path[0], indices[0]);
      var up := Honest(H, H(q), path[1..], indices[1..], inv);
      MerkleSignals([leaf] + up.levelHashes, [q[0]] + up.lefts, [q[1]] + up.rights, inv)
  }

  lemma {:induction false} HonestLevels(H: Hash<Field>, leaf: Field, path: seq<Field>, indices: seq<Field>, inv: Field)
    requires |path| == |indices| && Binary(indices)
    ensures var s := Honest(H, leaf, path, indices, inv);
      && s.levelHashes[|path|] == Fold(H, leaf, path, indices)
      && forall i :: 0 <= i < |path| ==> LevelConstraints(H, path, indices, s, i)
    decreases |path|
  {
    if path == [] {
    } else {
      var q := Ordered(leaf, path[0], indices[0]);
      var s, up := Honest(H, leaf, path, indices, inv), Honest(H, H(q), path[1..], indices[1..], inv);
      HonestLevels(H, H(q), path[1..], indices[1..], inv);
      forall i | 0 <= i < |path|
        ensures LevelConstraints(H, path, indices, s, i)
      {
        if i == 0 {
          BitIsBinary(indices[0]);
          SelectedByBit(leaf, path[0], indices[0]);
          SelectedByBit(path[0], leaf, indices[0]);
        } else {
          assert LevelConstraints(H, path[1..], indices[1..], up, i - 1);
        }
      }
    }
  }

  /** Completeness: a path that folds to the root satisfies the template whatever `inv` is. */
  lemma VerifierComplete(H: Hash<Field>, leaf: Field, path: seq<Field>, indices: seq<Field>, inv: Field)
    requires |path| == |indices| && Binary(indices)
    ensures MerkleProofVerifier(H, |path|, leaf, Fold(H, leaf, path, indices), path, indices, 1,
                                Honest(H, leaf, path, indices, inv))
  {
    HonestLevels(H, leaf, path, indices, inv);
    var root := Fold(H, leaf, path, indices);
    DifferenceIsZero(root, root);
    MulZero(inv);
    MulZero(1);
  }

  /** The template with `valid === 1` is exactly the host-side path check. */
  lemma VerifierIsPathCheck(H: Hash<Field>, leaf: Field, root: Field, path: seq<Field>, indices: seq<Field>)
    requires NoZeroDivisors() && |path| == |indices|
    ensures (exists s :: MerkleProofVerifier(H, |path|, leaf, root, path, indices, 1, s)) <==>
      Binary(indices) && Fold(H, leaf, path, indices) == root
  {
    if s :| MerkleProofVerifier(H, |path|, leaf, root, path, indices, 1, s) {
      VerifierSound(H, |path|, leaf, root, path, indices, 1, s);
    }
    if Binary(indices) && Fold(H, leaf, path, indices) == root {
      VerifierComplete(H, leaf, path, indices, 0);
    }
  }

  // ---------- comparison ----------

  /** circomlib `Num2Bits(n)` by contract, for widths below the modulus: `n` bits spell the input. */
  ghost predicate Num2Bits(n: nat, x: Field)
  {
    exists bits :: Spells(bits, n, x)
  }

  ghost predicate Spells(bits: seq<int>, n: nat, x: int)
  {
    |bits| == n && Binary(bits) && Index(bits) == x
  }

  lemma Num2BitsRange(n: nat, x: Field)
    ensures Num2Bits(n, x) <==> x < Pow2(n)
  {
    if bits :| Spells(bits, n, x) {
      LeBound(bits, 2);
      Pow2IsPow(n);
    }
    if x < Pow2(n) {
      BitsOfIndex(x, n);
      assert Spells(BitsOf(x, n), n, x);
    }
  }

  /** circomlib `LessThan(n)` by contract: it compares inputs that fit in `n` bits and promises nothing else. */
  ghost predicate LessThan(n: nat, in0: Field, in1: Field, out: Field)
  {
    Num2Bits(n, in0) && Num2Bits(n, in1) ==> out == if in0 < in1 then 1 else 0
  }

  /** The source compares in one bit more than the operands have, so that adding one cannot overflow. */
  ghost predicate ZKGreaterEqThan(n: nat, in0: Field, in1: Field, out: Field)
  {
    LessThan(n + 1, in1, Add(in0, 1), out)
  }

  lemma GreaterEqMeaning(n: nat, in0: Field, in1: Field, out: Field)
    requires n <= 251 && Num2Bits(n, in0) && Num2Bits(n, in1)
    ensures ZKGreaterEqThan(n, in0, in1, out) <==> out == if in0 >= in1 then 1 else 0
  {
    PowerBelowModulus(n);
    assert Pow2(n + 1) == 2 * Pow2(n);
    Num2BitsRange(n, in0);
    Num2BitsRange(n, in1);
    Num2BitsRange(n + 1, in1);
    Num2BitsRange(n + 1, Add(in0, 1));
  }

  lemma Pow2Of64()
    ensures Pow2(64) == TWO_64
  {
    Pow2Of32();
    Pow2Add(32, 32, 0x1_0000_0000, 0x1_0000_0000);
  }

  lemma Pow2Of88()
    ensures Pow2(88) == 0x1_0000_0000_0000_0000_0000_00
  {
    Pow2Of64();
    Pow2Of32();
    Pow2Add(8, 16, 0x100, 0x1_0000);
    Pow2Add(64, 24, TWO_64, 0x1_0000_00);
  }

  lemma Pow2Of128()
    ensures Pow2(128) == TWO_128
  {
    Pow2Of64();
    Pow2Add(64, 64, TWO_64, TWO_64);
  }

  /** The widths as constraints: what each range check of the circuits admits. */
  lemma Num2BitsWidths(x: Field)
    ensures Num2Bits(8, x) <==> x < 0x100
    ensures Num2Bits(16, x) <==> x < 0x1_0000
    ensures Num2Bits(64, x) <==> x < TWO_64
    ensures Num2Bits(88, x) <==> x < 0x1_0000_0000_0000_0000_0000_00
    ensures Num2Bits(128, x) <==> x < TWO_128
  {
    assert Pow2(8) == 0x100;
    Pow2Of32();
    Pow2Of64();
    Pow2Of88();
    Pow2Of128();
    Num2BitsBelow(8, 0x100, x);
    Num2BitsBelow(16, 0x1_0000, x);
    Num2BitsBelow(64, TWO_64, x);
    Num2BitsBelow(88, 0x1_0000_0000_0000_0000_0000_00, x);
    Num2BitsBelow(128, TWO_128, x);
  }

  lemma Num2BitsBelow(n: nat, bound: nat, x: Field)
    requires Pow2(n) == bound
    ensures Num2Bits(n, x) <==> x < bound
  {
    Num2BitsRange(n, x);
  }

  /** 2^251, as 2^128 * 2^88 * 2^32 * 2^3. */
  lemma Pow2Of251()
    ensures 2 * Pow2(251) < MODULUS
  {
    Pow2Of128();
    Pow2Of88();
    Pow2Of32();
    assert Pow2(3) == 8;
    Pow2Add(32, 3, 0x1_0000_0000, 8);
    Pow2Add(88, 35, 0x1_0000_0000_0000_0000_0000_00, 0x8_0000_0000);
    Pow2Add(128, 123, TWO_128, 0x8_0000_0000_0000_0000_0000_0000_0000_00);
  }

  lemma PowerBelowModulus(n: nat)
    requires n <= 251
    ensures 2 * Pow2(n) < MODULUS
  {
    Pow2Monotone(n, 251);
    Pow2Of251();
  }
}
