/**
 Merkle trees: the host-side builder and prover, and what a path against a root establishes.
 Source: circuits/shared/trade-commitment-v1.js (buildMerkleTree, merkleProof).
 */
module Merkle {
  import opened Machine
  import opened Positional
  import opened Hashing

  // ---------- the tree ----------

  function LevelQueries<F>(s: seq<F>): (q: seq<Query<F>>)
    requires |s| % 2 == 0
    ensures |q| == |s| / 2
  {
    if s == [] then [] else [[s[0], s[1]]] + LevelQueries(s[2..])
  }

  function NextLevel<F>(H: Hash<F>, s: seq<F>): (t: seq<F>)
    requires |s| % 2 == 0
    ensures |t| == |s| / 2
    decreases |s|
  {
    if s == [] then [] else [H([s[0], s[1]])] + NextLevel(H, s[2..])
  }

  lemma {:induction false} NodeAt<F>(H: Hash<F>, s: seq<F>, i: nat)
    requires |s| % 2 == 0 && i < |s| / 2
    ensures NextLevel(H, s)[i] == H([s[2 * i], s[2 * i + 1]])
    ensures [s[2 * i], s[2 * i + 1]] in LevelQueries(s)
    decreases i
  {
    if i == 0 {
    } else {
      NodeAt(H, s[2..], i - 1);
      assert s[2..][2 * (i - 1)] == s[2 * i] && s[2..][2 * (i - 1) + 1] == s[2 * i + 1];
      assert [s[2 * i], s[2 * i + 1]] in LevelQueries(s[2..]);
    }
  }

  /** The parent of a child hashes the child and its sibling, in the order of the path bit. */
  lemma ParentOf<F>(H: Hash<F>, s: seq<F>, i: nat)
    requires |s| % 2 == 0 && i < |s|
    ensures 0 <= Flip(i) < |s| && i / 2 < |s| / 2
    ensures NextLevel(H, s)[i / 2] == H(Ordered(s[i], s[Flip(i)], i % 2))
  {
    var j := i / 2;
    var q := Ordered(s[i], s[Flip(i)], i % 2);
    ChildOrder(s, i);
    NodeAt(H, s, j);
    assert q == [s[2 * j], s[2 * j + 1]];
  }

  /** A child and its sibling, in the order their path bit prescribes, are the node's two inputs. */
  lemma ChildOrder<F>(s: seq<F>, i: nat)
    requires |s| % 2 == 0 && i < |s|
    ensures 0 <= Flip(i) < |s| && Ordered(s[i], s[Flip(i)], i % 2) == [s[2 * (i / 2)], s[2 * (i / 2) + 1]]
  {
  }

  lemma NodeInputs<F>(s: seq<F>, j: nat, leaf: F, sibling: F, bit: int)
    requires |s| % 2 == 0 && j < |s| / 2 && (bit == 0 || bit == 1)
    requires Ordered(leaf, sibling, bit) == [s[2 * j], s[2 * j + 1]]
    ensures 0 <= Flip(2 * j + bit) < |s| && leaf == s[2 * j + bit] && sibling == s[Flip(2 * j + bit)]
    ensures (2 * j + bit) / 2 == j && (2 * j + bit) % 2 == bit
  {
    var q := Ordered(leaf, sibling, bit);
    assert q[0] == s[2 * j] && q[1] == s[2 * j + 1];
  }

  function Levels<F>(H: Hash<F>, leaves: seq<F>, d: nat): (levels: seq<seq<F>>)
    requires |leaves| == Pow2(d)
    ensures |levels| == d + 1 && levels[0] == leaves
    decreases d
  {
    if d == 0 then [leaves]
    else
      assert Pow2(d) == 2 * Pow2(d - 1);
      [leaves] + Levels(H, NextLevel(H, leaves), d - 1)
  }

  function Root<F>(H: Hash<F>, leaves: seq<F>, d: nat): F
    requires |leaves| == Pow2(d)
    decreases d
  {
    if d == 0 then leaves[0]
    else
      assert Pow2(d) == 2 * Pow2(d - 1);
      Root(H, NextLevel(H, leaves), d - 1)
  }

  /** Every input hashed while building the tree. */
  function TreeQueries<F>(H: Hash<F>, leaves: seq<F>, d: nat): seq<Query<F>>
    requires |leaves| == Pow2(d)
    decreases d
  {
    if d == 0 then []
    else
      assert Pow2(d) == 2 * Pow2(d - 1);
      LevelQueries(leaves) + TreeQueries(H, NextLevel(H, leaves), d - 1)
  }

  // ---------- paths ----------

  ghost predicate Binary(bits: seq<int>)
  {
    forall i :: 0 <= i < |bits| ==> bits[i] == 0 || bits[i] == 1
  }

  function Ordered<F>(x: F, sibling: F, bit: int): Query<F>
  {
    if bit == 0 then [x, sibling] else [sibling, x]
  }

  /** Hashes a leaf up along its siblings, least significant path bit first. */
  function Fold<F>(H: Hash<F>, leaf: F, siblings: seq<F>, bits: seq<int>): F
    requires |siblings| == |bits|
    decreases |siblings|
  {
    if siblings == [] then leaf
    else Fold(H, H(Ordered(leaf, siblings[0], bits[0])), siblings[1..], bits[1..])
  }

  function FoldQueries<F>(H: Hash<F>, leaf: F, siblings: seq<F>, bits: seq<int>): seq<Query<F>>
    requires |siblings| == |bits|
    decreases |siblings|
  {
    if siblings == [] then []
    else
      var q := Ordered(leaf, siblings[0], bits[0]);
      [q] + FoldQueries(H, H(q), siblings[1..], bits[1..])
  }

  function Index(bits: seq<int>): int
  {
    LeVal(bits, 2)
  }

  function Flip(i: int): int
  {
    if i % 2 == 0 then i + 1 else i - 1
  }

  lemma FlipBound(i: nat, n: nat)
    requires n % 2 == 0 && i < n
    ensures 0 <= Flip(i) < n && i / 2 < n / 2
  {
  }

  function BitsOf(i: nat, d: nat): (bits: seq<int>)
    ensures |bits| == d
  {
    if d == 0 then [] else [i % 2] + BitsOf(i / 2, d - 1)
  }

  function Siblings<F>(H: Hash<F>, leaves: seq<F>, d: nat, i: nat): (siblings: seq<F>)
    requires |leaves| == Pow2(d) && i < |leaves|
    ensures |siblings| == d
    decreases d
  {
    if d == 0 then []
    else
      assert Pow2(d) == 2 * Pow2(d - 1);
      FlipBound(i, |leaves|);
      [leaves[Flip(i)]] + Siblings(H, NextLevel(H, leaves), d - 1, i / 2)
  }

  lemma {:induction false} BitsOfIndex(i: nat, d: nat)
    requires i < Pow2(d)
    ensures Binary(BitsOf(i, d)) && Index(BitsOf(i, d)) == i
  {
    if d == 0 {
    } else {
      BitsOfIndex(i / 2, d - 1);
      assert BitsOf(i, d)[1..] == BitsOf(i / 2, d - 1);
    }
  }

  /** One level of the tree: halves, and the first step of the path to leaf `i`. */
  lemma TreeStep<F>(H: Hash<F>, leaves: seq<F>, d: nat)
    requires 0 < d && |leaves| == Pow2(d)
    ensures |leaves| % 2 == 0 && |NextLevel(H, leaves)| == Pow2(d - 1)
    ensures Root(H, leaves, d) == Root(H, NextLevel(H, leaves), d - 1)
  {
  }

  lemma PathStep<F>(H: Hash<F>, leaves: seq<F>, d: nat, i: nat)
    requires 0 < d && |leaves| == Pow2(d) && i < |leaves|
    requires |leaves| % 2 == 0 && |NextLevel(H, leaves)| == Pow2(d - 1)
    ensures 0 <= Flip(i) < |leaves| && i / 2 < Pow2(d - 1)
    ensures Siblings(H, leaves, d, i) == [leaves[Flip(i)]] + Siblings(H, NextLevel(H, leaves), d - 1, i / 2)
    ensures BitsOf(i, d) == [i % 2] + BitsOf(i / 2, d - 1)
  {
  }

  /** The proof extracted for any leaf folds back to the root of the tree. */
  lemma {:induction false} PathComplete<F>(H: Hash<F>, leaves: seq<F>, d: nat, i: nat)
    requires |leaves| == Pow2(d) && i < |leaves|
    ensures Fold(H, leaves[i], Siblings(H, leaves, d, i), BitsOf(i, d)) == Root(H, leaves, d)
    decreases d
  {
    if d == 0 {
    } else {
      TreeStep(H, leaves, d);
      PathStep(H, leaves, d, i);
      ParentOf(H, leaves, i);
      var up := NextLevel(H, leaves);
      PathComplete(H, up, d - 1, i / 2);
      FoldStep(H, leaves[i], leaves[Flip(i)], Siblings(H, up, d - 1, i / 2), i % 2, BitsOf(i / 2, d - 1));
    }
  }

  lemma FoldStep<F>(H: Hash<F>, leaf: F, sibling: F, siblings: seq<F>, bit: int, bits: seq<int>)
    requires |siblings| == |bits|
    ensures Fold(H, leaf, [sibling] + siblings, [bit] + bits) == Fold(H, H(Ordered(leaf, sibling, bit)), siblings, bits)
  {
    assert ([sibling] + siblings)[1..] == siblings && ([bit] + bits)[1..] == bits;
  }

  /**
   Soundness at any depth: whatever leaf, siblings and bits fold to the root of a 2^d-leaf tree,
   the leaf is the one at the index the bits spell and the siblings are those of its proof,
   unless two inputs hashed by the builder or by the verifier collide.
   */
  lemma {:induction false} PathSound<F>(H: Hash<F>, leaves: seq<F>, d: nat, leaf: F, siblings: seq<F>, bits: seq<int>)
    requires |leaves| == Pow2(d) && |siblings| == |bits| == d && Binary(bits)
    requires Fold(H, leaf, siblings, bits) == Root(H, leaves, d)
    requires CollisionFree(H, TreeQueries(H, leaves, d) + FoldQueries(H, leaf, siblings, bits))
    ensures 0 <= Index(bits) < |leaves|
    ensures leaf == leaves[Index(bits)]
    ensures siblings == Siblings(H, leaves, d, Index(bits))
    ensures bits == BitsOf(Index(bits), d)
    decreases d
  {
    if d == 0 {
      EmptyPath(H, leaves, leaf, siblings, bits);
    } else {
      TreeStep(H, leaves, d);
      TranscriptStep(H, leaves, d, leaf, siblings, bits);
      PathSound(H, NextLevel(H, leaves), d - 1, H(Ordered(leaf, siblings[0], bits[0])), siblings[1..], bits[1..]);
      InputsOfNode(H, leaves, d, leaf, siblings, bits, Index(bits[1..]));
      IndexStep(bits);
      LeafStep(H, leaves, d, leaf, siblings, bits, Index(bits));
    }
  }

  lemma EmptyPath<F>(H: Hash<F>, leaves: seq<F>, leaf: F, siblings: seq<F>, bits: seq<int>)
    requires |leaves| == 1 && siblings == [] && bits == []
    requires Fold(H, leaf, siblings, bits) == Root(H, leaves, 0)
    ensures Index(bits) == 0 && leaf == leaves[0]
    ensures siblings == Siblings(H, leaves, 0, 0) && bits == BitsOf(0, 0)
  {
  }

  /** Equal nodes have equal inputs. */
  lemma InputsOfNode<F>(H: Hash<F>, leaves: seq<F>, d: nat, leaf: F, siblings: seq<F>, bits: seq<int>, j: nat)
    requires 0 < d == |siblings| == |bits| && |leaves| == Pow2(d)
    requires |leaves| % 2 == 0 && j < |NextLevel(H, leaves)| == Pow2(d - 1)
    requires CollisionFree(H, TreeQueries(H, leaves, d) + FoldQueries(H, leaf, siblings, bits))
    requires H(Ordered(leaf, siblings[0], bits[0])) == NextLevel(H, leaves)[j]
    ensures Ordered(leaf, siblings[0], bits[0]) == [leaves[2 * j], leaves[2 * j + 1]]
  {
    var q, node := Ordered(leaf, siblings[0], bits[0]), [leaves[2 * j], leaves[2 * j + 1]];
    NodeAt(H, leaves, j);
    TreeQueriesStep(H, leaves, d);
    FoldQueriesStep(H, leaf, siblings, bits);
    var a, b := LevelQueries(leaves), TreeQueries(H, NextLevel(H, leaves), d - 1);
    var c := FoldQueries(H, H(q), siblings[1..], bits[1..]);
    assert node in a + b && q in [q] + c;
    SameInput(H, (a + b) + ([q] + c), q, node);
  }

  lemma IndexStep(bits: seq<int>)
    requires bits != [] && (bits[0] == 0 || bits[0] == 1) && 0 <= Index(bits[1..])
    ensures 0 <= Index(bits) && Index(bits) / 2 == Index(bits[1..]) && Index(bits) % 2 == bits[0]
  {
  }

  /** From the node above to leaf `i`, once the node's inputs and siblings are known. */
  lemma LeafStep<F>(H: Hash<F>, leaves: seq<F>, d: nat, leaf: F, siblings: seq<F>, bits: seq<int>, i: nat)
    requires 0 < d == |siblings| == |bits| && |leaves| == Pow2(d) && i < |leaves| && i % 2 == bits[0]
    requires |leaves| % 2 == 0 && |NextLevel(H, leaves)| == Pow2(d - 1)
    requires Ordered(leaf, siblings[0], bits[0]) == [leaves[2 * (i / 2)], leaves[2 * (i / 2) + 1]]
    requires siblings[1..] == Siblings(H, NextLevel(H, leaves), d - 1, i / 2) && bits[1..] == BitsOf(i / 2, d - 1)
    ensures leaf == leaves[i]
    ensures siblings == Siblings(H, leaves, d, i)
    ensures bits == BitsOf(i, d)
  {
    NodeInputs(leaves, i / 2, leaf, siblings[0], bits[0]);
    PathStep(H, leaves, d, i);
    assert siblings == [leaves[Flip(i)]] + siblings[1..] && bits == [i % 2] + bits[1..];
  }

  /** The transcript of the upper levels is part of the whole. */
  lemma TranscriptStep<F>(H: Hash<F>, leaves: seq<F>, d: nat, leaf: F, siblings: seq<F>, bits: seq<int>)
    requires 0 < d == |siblings| == |bits| && |leaves| == Pow2(d)
    requires |leaves| % 2 == 0 && |NextLevel(H, leaves)| == Pow2(d - 1)
    requires CollisionFree(H, TreeQueries(H, leaves, d) + FoldQueries(H, leaf, siblings, bits))
    ensures var up, q := NextLevel(H, leaves), Ordered(leaf, siblings[0], bits[0]);
      CollisionFree(H, TreeQueries(H, up, d - 1) + FoldQueries(H, H(q), siblings[1..], bits[1..]))
  {
    var q := Ordered(leaf, siblings[0], bits[0]);
    TreeQueriesStep(H, leaves, d);
    FoldQueriesStep(H, leaf, siblings, bits);
    SplitTranscript(H, LevelQueries(leaves), TreeQueries(H, NextLevel(H, leaves), d - 1),
                    [q], FoldQueries(H, H(q), siblings[1..], bits[1..]));
  }

  lemma TreeQueriesStep<F>(H: Hash<F>, leaves: seq<F>, d: nat)
    requires 0 < d && |leaves| == Pow2(d)
    requires |leaves| % 2 == 0 && |NextLevel(H, leaves)| == Pow2(d - 1)
    ensures TreeQueries(H, leaves, d) == LevelQueries(leaves) + TreeQueries(H, NextLevel(H, leaves), d - 1)
  {
  }

  lemma FoldQueriesStep<F>(H: Hash<F>, leaf: F, siblings: seq<F>, bits: seq<int>)
    requires 0 < |siblings| == |bits|
    ensures var q := Ordered(leaf, siblings[0], bits[0]);
      FoldQueries(H, leaf, siblings, bits) == [q] + FoldQueries(H, H(q), siblings[1..], bits[1..])
  {
  }

  lemma SplitTranscript<F>(H: Hash<F>, a: seq<Query<F>>, b: seq<Query<F>>, c: seq<Query<F>>, d: seq<Query<F>>)
    requires CollisionFree(H, (a + b) + (c + d))
    ensures CollisionFree(H, b + d)
  {
    var all := (a + b) + (c + d);
    assert forall x :: x in a || x in b || x in c || x in d ==> x in all;
    CollisionFreePart(H, all, b + d);
  }

  // ---------- the JavaScript builder ----------

  /** JavaScript arrays have fewer than 2^32 elements. */
  type JsArray<F> = s: seq<F> | |s| < TWO_32

  /** JavaScript's bitwise operators first reduce their operands to signed 32-bit integers. */
  function ToInt32(x: int): int
  {
    (x + 0x8000_0000) % 0x1_0000_0000 - 0x8000_0000
  }

  /** The signed 32-bit integer congruent to the operand. */
  lemma ToInt32Exactly(x: int)
    ensures -0x8000_0000 <= ToInt32(x) < 0x8000_0000
    ensures (x - ToInt32(x)) % 0x1_0000_0000 == 0
  {
  }

  lemma ToInt32Small(x: int)
    requires -0x8000_0000 <= x < 0x8000_0000
    ensures ToInt32(x) == x
  {
  }

  lemma ToInt32Zero(x: int)
    requires 0 <= x < 0x1_0000_0000
    ensures ToInt32(x) == 0 <==> x == 0
  {
  }

  lemma PatternOfLength(n: nat)
    requires n < TWO_32
    ensures n % 0x1_0000_0000 == n
  {
  }

  lemma JsAndOnLengths(a: nat, b: nat)
    requires a < TWO_32 && b < TWO_32
    ensures JsAnd(a, b) == 0 <==> BitAnd(a, b) == 0
  {
    PatternOfLength(a);
    PatternOfLength(b);
    BitAndBound(a, b);
    ToInt32Zero(BitAnd(a, b));
  }

  /** `a & b`, computed on the bit patterns. */
  function JsAnd(a: int, b: int): int
  {
    ToInt32(BitAnd(a % 0x1_0000_0000, b % 0x1_0000_0000))
  }

  function BitAnd(a: nat, b: nat): nat
  {
    if a == 0 || b == 0 then 0
    else 2 * BitAnd(a / 2, b / 2) + if a % 2 == 1 && b % 2 == 1 then 1 else 0
  }

  predicate Bit(n: nat, k: nat)
  {
    if k == 0 then n % 2 == 1 else Bit(n / 2, k - 1)
  }

  lemma {:induction false} NoBits(k: nat)
    ensures !Bit(0, k)
  {
    if k == 0 {
    } else {
      NoBits(k - 1);
    }
  }

  /** Bitwise: each bit of the result is set exactly if it is set in both operands. */
  lemma {:induction false} BitAndAt(a: nat, b: nat, k: nat)
    ensures Bit(BitAnd(a, b), k) <==> Bit(a, k) && Bit(b, k)
    decreases k
  {
    if a == 0 || b == 0 {
      NoBits(k);
    } else {
      Halve(BitAnd(a / 2, b / 2), if a % 2 == 1 && b % 2 == 1 then 1 else 0);
      if k != 0 {
        BitAndAt(a / 2, b / 2, k - 1);
      }
    }
  }

  lemma Halve(m: nat, e: nat)
    requires e < 2
    ensures (2 * m + e) / 2 == m && (2 * m + e) % 2 == e
  {
  }

  lemma {:induction false} BitAndBound(a: nat, b: nat)
    ensures BitAnd(a, b) <= a
  {
    if a == 0 || b == 0 {
    } else {
      BitAndBound(a / 2, b / 2);
    }
  }

  lemma {:induction false} BitAndSelf(a: nat)
    ensures BitAnd(a, a) == a
  {
    if a == 0 {
    } else {
      BitAndSelf(a / 2);
    }
  }

  ghost predicate IsPowerOfTwo(n: nat)
  {
    exists d: nat :: n == Pow2(d)
  }

  lemma DoublePower(k: nat)
    requires k > 0
    ensures IsPowerOfTwo(2 * k) <==> IsPowerOfTwo(k)
  {
    if IsPowerOfTwo(k) {
      var d: nat :| k == Pow2(d);
      assert 2 * k == Pow2(d + 1);
    }
    if IsPowerOfTwo(2 * k) {
      var d: nat :| 2 * k == Pow2(d);
      assert d > 0 && k == Pow2(d - 1);
    }
  }

  lemma OddPower(k: nat)
    requires k > 0
    ensures !IsPowerOfTwo(2 * k + 1)
  {
    forall d: nat
      ensures 2 * k + 1 != Pow2(d)
    {
      if d > 0 {
        assert Pow2(d) == 2 * Pow2(d - 1);
      }
    }
  }

  lemma {:induction false} BitTrick(n: nat)
    requires n > 0
    ensures BitAnd(n, n - 1) == 0 <==> IsPowerOfTwo(n)
  {
    if n == 1 {
      assert n == Pow2(0);
    } else if n % 2 == 0 {
      BitTrick(n / 2);
      DoublePower(n / 2);
      assert (n - 1) / 2 == n / 2 - 1;
    } else {
      BitAndSelf(n / 2);
      OddPower(n / 2);
      assert (n - 1) / 2 == n / 2;
    }
  }

  /** The test on array lengths accepts exactly the powers of two, although `&` is signed. */
  lemma PowerOfTwoTrick(n: nat)
    requires 0 < n < TWO_32
    ensures JsAnd(n, n - 1) == 0 <==> IsPowerOfTwo(n)
  {
    BitTrick(n);
    JsAndOnLengths(n, n - 1);
  }

  method HashLevel<F>(H: Hash<F>, prior: seq<F>) returns (next: seq<F>)
    requires |prior| % 2 == 0
    ensures next == NextLevel(H, prior)
  {
    next := [];
    var i := 0;
    while i < |prior|
      invariant 0 <= i <= |prior| && i % 2 == 0
      invariant |next| == i / 2
      invariant forall k :: 0 <= k < i / 2 ==> next[k] == NextLevel(H, prior)[k]
    {
      NodeAt(H, prior, i / 2);
      next := next + [H([prior[i], prior[i + 1]])];
      i := i + 2;
    }
  }

  lemma LevelsStep<F>(H: Hash<F>, level: seq<F>, e: nat)
    requires |level| == Pow2(e) && |level| > 1
    ensures 0 < e && |level| % 2 == 0 && |NextLevel(H, level)| == Pow2(e - 1)
    ensures Levels(H, level, e) == [level] + Levels(H, NextLevel(H, level), e - 1)
  {
  }

  lemma LevelsDone<F>(H: Hash<F>, level: seq<F>, e: nat)
    requires |level| == Pow2(e) && |level| <= 1
    ensures e == 0 && Levels(H, level, e) == [level]
  {
  }

  lemma {:induction false} PowerOfTwoInjective(d: nat, e: nat)
    requires Pow2(d) == Pow2(e)
    ensures d == e
  {
    if d == 0 || e == 0 {
    } else {
      PowerOfTwoInjective(d - 1, e - 1);
    }
  }

  /** The root is the single value on the top level. */
  lemma {:induction false} TopLevel<F>(H: Hash<F>, leaves: seq<F>, d: nat)
    requires |leaves| == Pow2(d)
    ensures Levels(H, leaves, d)[d] == [Root(H, leaves, d)]
    decreases d
  {
    if d == 0 {
    } else {
      TreeStep(H, leaves, d);
      TopLevel(H, NextLevel(H, leaves), d - 1);
    }
  }

  /** Every level is half as long as the one below, and each of its values hashes the two below it, left first. */
  lemma {:induction false} LevelNodes<F>(H: Hash<F>, leaves: seq<F>, d: nat, k: nat, i: nat)
    requires |leaves| == Pow2(d) && k < d && i < Pow2(d - k - 1)
    ensures var levels := Levels(H, leaves, d);
      && |levels[k]| == Pow2(d - k) == 2 * Pow2(d - k - 1) && |levels[k + 1]| == Pow2(d - k - 1)
      && levels[k + 1][i] == H([levels[k][2 * i], levels[k][2 * i + 1]])
    decreases k
  {
    TreeStep(H, leaves, d);
    var up := NextLevel(H, leaves);
    LevelsCons(H, leaves, d);
    if k == 0 {
      NodeAt(H, leaves, i);
    } else {
      LevelNodes(H, up, d - 1, k - 1, i);
    }
  }

  /** Succeeds exactly on a power of two, and then returns all levels, leaves first. */
  method BuildMerkleTree<F>(H: Hash<F>, leaves: JsArray<F>) returns (r: Js<seq<seq<F>>>)
    ensures r.Returned? <==> IsPowerOfTwo(|leaves|)
    ensures forall d: nat | |leaves| == Pow2(d) :: r == Returned(Levels(H, leaves, d))
  {
    if |leaves| == 0 || JsAnd(|leaves|, |leaves| - 1) != 0 {
      if |leaves| != 0 {
        PowerOfTwoTrick(|leaves|);
      }
      return Throws("Merkle leaf count must be a nonzero power of two");
    }
    PowerOfTwoTrick(|leaves|);
    ghost var d: nat :| |leaves| == Pow2(d);
    var levels := BuildLevels(H, leaves, d);
    forall e: nat | |leaves| == Pow2(e)
      ensures e == d
    {
      PowerOfTwoInjective(e, d);
    }
    r := Returned(levels);
  }

  lemma Reassociate<T>(a: seq<T>, x: T, b: seq<T>)
    ensures a + ([x] + b) == (a + [x]) + b
  {
  }

  method BuildLevels<F>(H: Hash<F>, leaves: seq<F>, ghost d: nat) returns (levels: seq<seq<F>>)
    requires |leaves| == Pow2(d)
    ensures levels == Levels(H, leaves, d)
  {
    levels := [leaves];
    ghost var e, done := d, [];
    while |levels[|levels| - 1]| > 1
      invariant levels != [] && levels == done + [levels[|levels| - 1]]
      invariant |levels[|levels| - 1]| == Pow2(e)
      invariant Levels(H, leaves, d) == done + Levels(H, levels[|levels| - 1], e)
      decreases e
    {
      var prior := levels[|levels| - 1];
      LevelsStep(H, prior, e);
      var next := HashLevel(H, prior);
      Reassociate(done, prior, Levels(H, next, e - 1));
      e, done := e - 1, levels;
      levels := levels + [next];
    }
    LevelsDone(H, levels[|levels| - 1], e);
  }

  // ---------- the JavaScript prover ----------

  /** Indexing an array; outside it the element is undefined. */
  function Element<F>(s: seq<F>, i: int): Option<F>
  {
    if 0 <= i < |s| then Some(s[i]) else None
  }

  /** The siblings read off any list of levels, from the level of the cursor up. */
  function SiblingsOn<F>(levels: seq<seq<F>>, cursor: int): seq<Option<F>>
  {
    if |levels| <= 1 then []
    else [Element(levels[0], Flip(ToInt32(cursor)))] + SiblingsOn(levels[1..], ToInt32(cursor) / 2)
  }

  function BitsOn(n: nat, cursor: int): seq<int>
  {
    if n == 0 then [] else [ToInt32(cursor) % 2] + BitsOn(n - 1, ToInt32(cursor) / 2)
  }

  /** Fails exactly outside the first level, whatever the levels are. */
  method MerkleProof<F>(levels: seq<JsArray<F>>, index: int) returns (r: Js<(seq<Option<F>>, seq<int>)>)
    ensures r.Returned? <==> levels != [] && 0 <= index < |levels[0]|
    ensures r.Returned? ==> r.value == (SiblingsOn(levels, index), BitsOn(|levels| - 1, index))
  {
    if index < 0 || levels == [] || index >= |levels[0]| {
      return Throws("invalid leaf index");
    }
    var siblings: seq<Option<F>>, pathIndices: seq<int>, cursor := [], [], index;
    assert levels[0..] == levels;
    for level := 0 to |levels| - 1
      invariant siblings + SiblingsOn(levels[level..], cursor) == SiblingsOn(levels, index)
      invariant pathIndices + BitsOn(|levels| - 1 - level, cursor) == BitsOn(|levels| - 1, index)
    {
      SiblingStep(levels[level..], cursor, siblings);
      BitStep(|levels| - 1 - level, cursor, pathIndices);
      assert levels[level..][1..] == levels[level + 1..];
      siblings := siblings + [Element(levels[level], Flip(ToInt32(cursor)))];
      pathIndices := pathIndices + [ToInt32(cursor) % 2];
      cursor := ToInt32(cursor) / 2;
    }
    assert siblings + [] == siblings && pathIndices + [] == pathIndices;
    r := Returned((siblings, pathIndices));
  }

  lemma SiblingStep<F>(levels: seq<seq<F>>, cursor: int, siblings: seq<Option<F>>)
    requires |levels| > 1
    ensures siblings + SiblingsOn(levels, cursor) ==
      (siblings + [Element(levels[0], Flip(ToInt32(cursor)))]) + SiblingsOn(levels[1..], ToInt32(cursor) / 2)
  {
    Reassociate(siblings, Element(levels[0], Flip(ToInt32(cursor))), SiblingsOn(levels[1..], ToInt32(cursor) / 2));
  }

  lemma BitStep(n: nat, cursor: int, bits: seq<int>)
    requires n > 0
    ensures bits + BitsOn(n, cursor) == (bits + [ToInt32(cursor) % 2]) + BitsOn(n - 1, ToInt32(cursor) / 2)
  {
    Reassociate(bits, ToInt32(cursor) % 2, BitsOn(n - 1, ToInt32(cursor) / 2));
  }

  /** Every element is defined. */
  function Present<F>(s: seq<F>): (t: seq<Option<F>>)
    ensures |t| == |s|
  {
    if s == [] then [] else [Some(s[0])] + Present(s[1..])
  }

  /** On the levels of a tree that fits an array, the signed operators wrap nowhere: the proof is the leaf's own. */
  lemma ProofOfBuiltTree<F>(H: Hash<F>, leaves: JsArray<F>, d: nat, i: nat)
    requires |leaves| == Pow2(d) && i < |leaves|
    ensures SiblingsOn(Levels(H, leaves, d), i) == Present(Siblings(H, leaves, d, i))
    ensures BitsOn(d, i) == BitsOf(i, d)
  {
    LengthBound(d);
    ProofBelow(H, leaves, d, i);
  }

  lemma LengthBound(d: nat)
    requires Pow2(d) < TWO_32
    ensures Pow2(d) <= TWO_31
  {
    Pow2Of32();
    if d >= 32 {
      Pow2Monotone(32, d);
    } else {
      Pow2Monotone(d, 31);
      assert Pow2(32) == 2 * Pow2(31);
    }
  }

  lemma {:induction false} ProofBelow<F>(H: Hash<F>, leaves: seq<F>, d: nat, i: nat)
    requires |leaves| == Pow2(d) <= TWO_31 && i < |leaves|
    ensures SiblingsOn(Levels(H, leaves, d), i) == Present(Siblings(H, leaves, d, i))
    ensures BitsOn(d, i) == BitsOf(i, d)
    decreases d
  {
    if d == 0 {
    } else {
      TreeStep(H, leaves, d);
      PathStep(H, leaves, d, i);
      var up := NextLevel(H, leaves);
      ProofBelow(H, up, d - 1, i / 2);
      ToInt32Small(i);
      LevelsCons(H, leaves, d);
      PresentCons(leaves[Flip(i)], Siblings(H, up, d - 1, i / 2));
    }
  }

  lemma LevelsCons<F>(H: Hash<F>, leaves: seq<F>, d: nat)
    requires 0 < d && |leaves| == Pow2(d)
    requires |leaves| % 2 == 0 && |NextLevel(H, leaves)| == Pow2(d - 1)
    ensures Levels(H, leaves, d)[1..] == Levels(H, NextLevel(H, leaves), d - 1)
  {
  }

  lemma PresentCons<F>(x: F, s: seq<F>)
    ensures Present([x] + s) == [Some(x)] + Present(s)
  {
    assert ([x] + s)[1..] == s;
  }
}
