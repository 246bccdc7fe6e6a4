/**
 Committing to a byte string of any length in 16-byte chunks.
 Sources: crates/commitments/src/trade.rs (canonical_bytes_commitment),
 circuits/shared/trade-commitment-v1.js (commitCanonicalBytes).
 */
module CanonicalBytes {
  import opened Machine
  import opened Positional
  import opened Protocol
  import opened Hashing
  import opened Encoding
  import opened Hex

  /** Little-endian values of consecutive chunks of 16 bytes, the last one possibly shorter. */
  function Chunks(bytes: seq<byte>): (limbs: seq<u128>)
    ensures |limbs| == (|bytes| + 15) / 16
  {
    if |bytes| <= 16 then
      if bytes == [] then [] else [Le(bytes)]
    else
      [Le(bytes[..16])] + Chunks(bytes[16..])
  }

  lemma ChunksStep(rest: seq<byte>)
    requires rest != []
    ensures var width := if |rest| < 16 then |rest| else 16;
      Chunks(rest) == [Le(rest[..width])] + Chunks(rest[width..])
  {
    if |rest| <= 16 {
      assert rest[..|rest|] == rest && rest[|rest|..] == [];
    }
  }

  /** The sponge state after absorbing the first `n` limbs. */
  function State(H: Hash<Field>, start: Field, limbs: seq<u128>, n: nat): Field
    requires n <= |limbs| <= TWO_64
    decreases n, 0
  {
    if n == 0 then start else H(StepQuery(H, start, limbs, n - 1))
  }

  function StepQuery(H: Hash<Field>, start: Field, limbs: seq<u128>, i: nat): Query<Field>
    requires i < |limbs| <= TWO_64
    decreases i, 1
  {
    [State(H, start, limbs, i), limbs[i], i]
  }

  function StartQuery(domain: Field, bytes: seq<byte>): Query<Field>
    requires |bytes| < TWO_64
  {
    [domain, |bytes|, |Chunks(bytes)|]
  }

  function CommitBytes(H: Hash<Field>, domain: Field, bytes: seq<byte>): Field
    requires |bytes| < TWO_64
  {
    State(H, H(StartQuery(domain, bytes)), Chunks(bytes), |Chunks(bytes)|)
  }

  // ---------- the staging, without the functions above ----------

  /** The number that the `i`-th sixteen bytes denote, fewer at the end, least significant byte first. */
  function ChunkValue(bytes: seq<byte>, i: nat): int
    requires 16 * i < |bytes|
  {
    LeVal(bytes[16 * i..if 16 * i + 16 < |bytes| then 16 * i + 16 else |bytes|], 256)
  }

  /**
   The documented staging: the first state hashes domain, byte length and chunk count; each further
   one hashes the state before it, the next chunk and that chunk's position, in this order.
   */
  ghost predicate IsStaging(H: Hash<Field>, domain: Field, bytes: seq<byte>, states: seq<Field>)
    requires |bytes| < TWO_64
  {
    var n := (|bytes| + 15) / 16;
    && |states| == n + 1
    && states[0] == H([domain, |bytes|, n])
    && forall i :: 0 <= i < n ==> StagingStep(H, bytes, states, i)
  }

  ghost predicate StagingStep(H: Hash<Field>, bytes: seq<byte>, states: seq<Field>, i: nat)
    requires i + 1 < |states| && 16 * i < |bytes| < TWO_64
  {
    0 <= ChunkValue(bytes, i) < MODULUS && states[i + 1] == H([states[i], ChunkValue(bytes, i), i])
  }

  lemma {:induction false} ChunkAt(bytes: seq<byte>, i: nat)
    requires 16 * i < |bytes|
    ensures i < |Chunks(bytes)| && Chunks(bytes)[i] == ChunkValue(bytes, i)
    decreases i
  {
    ChunksStep(bytes);
    if i == 0 {
    } else {
      var rest := bytes[16..];
      ChunkAt(rest, i - 1);
      ChunkShift(bytes, i);
    }
  }

  lemma ChunkShift(bytes: seq<byte>, i: nat)
    requires 0 < i && 16 * i < |bytes|
    ensures ChunkValue(bytes, i) == ChunkValue(bytes[16..], i - 1)
  {
    var end := if 16 * i + 16 < |bytes| then 16 * i + 16 else |bytes|;
    assert bytes[16..][16 * (i - 1)..end - 16] == bytes[16 * i..end];
  }

  function States(H: Hash<Field>, start: Field, limbs: seq<u128>, n: nat): (states: seq<Field>)
    requires n <= |limbs| <= TWO_64
    ensures |states| == n + 1
  {
    if n == 0 then [start] else States(H, start, limbs, n - 1) + [State(H, start, limbs, n)]
  }

  lemma {:induction false} StateAt(H: Hash<Field>, start: Field, limbs: seq<u128>, n: nat, i: nat)
    requires i <= n <= |limbs| <= TWO_64
    ensures States(H, start, limbs, n)[i] == State(H, start, limbs, i)
    decreases n
  {
    if i == n {
    } else {
      StateAt(H, start, limbs, n - 1, i);
    }
  }

  /** The commitment is the last state of the documented staging. */
  lemma CommitmentIsLastState(H: Hash<Field>, domain: Field, bytes: seq<byte>)
    requires |bytes| < TWO_64
    ensures exists states ::
      IsStaging(H, domain, bytes, states) && states[|states| - 1] == CommitBytes(H, domain, bytes)
  {
    var limbs, start := Chunks(bytes), H(StartQuery(domain, bytes));
    var n := |limbs|;
    var states := States(H, start, limbs, n);
    StateAt(H, start, limbs, n, 0);
    StateAt(H, start, limbs, n, n);
    forall i | 0 <= i < n
      ensures StagingStep(H, bytes, states, i)
    {
      ChunkAt(bytes, i);
      StateAt(H, start, limbs, n, i);
      StateAt(H, start, limbs, n, i + 1);
    }
    assert IsStaging(H, domain, bytes, states);
  }

  /** There is only one staging, so its last state is the commitment. */
  lemma {:induction false} StagingIsUnique(H: Hash<Field>, domain: Field, bytes: seq<byte>, s: seq<Field>,
                                           t: seq<Field>, i: nat)
    requires |bytes| < TWO_64 && IsStaging(H, domain, bytes, s) && IsStaging(H, domain, bytes, t) && i < |s|
    ensures s[i] == t[i]
  {
    if i == 0 {
    } else {
      StagingIsUnique(H, domain, bytes, s, t, i - 1);
      assert StagingStep(H, bytes, s, i - 1) && StagingStep(H, bytes, t, i - 1);
    }
  }

  // ---------- the two implementations ----------

  /** Rust: lengths and indices are narrowed to 64 bits, which loses nothing below 2^64 bytes. */
  method CanonicalBytesCommitment(H: Hash<Field>, domain: Field, bytes: seq<byte>) returns (state: Field)
    ensures |bytes| < TWO_64 ==> state == CommitBytes(H, domain, bytes)
    ensures |bytes| < TWO_64 ==> exists states :: IsStaging(H, domain, bytes, states) && states[|states| - 1] == state
  {
    if |bytes| < TWO_64 {
      CommitmentIsLastState(H, domain, bytes);
    }
    var chunks := CollectChunks(bytes);
    NoNarrowing(|bytes|);
    NoNarrowing(|chunks|);
    state := H([domain, |bytes| % TWO_64, |chunks| % TWO_64]);
    for index := 0 to |chunks|
      invariant |bytes| < TWO_64 ==> state == State(H, H(StartQuery(domain, bytes)), chunks, index)
    {
      NoNarrowing(index);
      state := H([state, chunks[index], index % TWO_64]);
    }
  }

  lemma NoNarrowing(n: nat)
    ensures 0 <= n % TWO_64 < TWO_64
    ensures n < TWO_64 ==> n % TWO_64 == n
  {
  }

  method CollectChunks(bytes: seq<byte>) returns (chunks: seq<u128>)
    ensures chunks == Chunks(bytes)
  {
    chunks := [];
    var rest := bytes;
    while rest != []
      invariant chunks + Chunks(rest) == Chunks(bytes)
      decreases |rest|
    {
      var width := if |rest| < 16 then |rest| else 16;
      var limb := LittleEndianU128(rest[..width]);
      ChunksStep(rest);
      assert chunks + ([limb] + Chunks(rest[width..])) == (chunks + [limb]) + Chunks(rest[width..]);
      chunks, rest := chunks + [limb], rest[width..];
    }
  }

  function From(bytes: seq<byte>, offset: nat): seq<byte>
  {
    if offset < |bytes| then bytes[offset..] else []
  }

  lemma PushChunk(bytes: seq<byte>, offset: nat, end: nat, limbs: seq<u128>)
    requires offset < |bytes| && end == if offset + 16 < |bytes| then offset + 16 else |bytes|
    ensures limbs + Chunks(From(bytes, offset)) == (limbs + [Le(bytes[offset..end])]) + Chunks(From(bytes, offset + 16))
  {
    var rest, width := From(bytes, offset), end - offset;
    ChunksStep(rest);
    assert bytes[offset..end] == rest[..width] && From(bytes, offset + 16) == rest[width..];
  }

  /** JavaScript: offsets step by 16 and the last slice is cut at the end of the buffer. */
  method SplitBuffer(bytes: seq<byte>) returns (limbs: seq<u128>)
    ensures limbs == Chunks(bytes)
  {
    limbs := [];
    var offset: nat := 0;
    assert bytes[0..] == bytes;
    while offset < |bytes|
      invariant limbs + Chunks(From(bytes, offset)) == Chunks(bytes)
    {
      var end := if offset + 16 < |bytes| then offset + 16 else |bytes|;
      PushChunk(bytes, offset, end, limbs);
      limbs := limbs + [Le(bytes[offset..end])];
      offset := offset + 16;
    }
  }

  method SplitBytesIntoLittleEndianLimbs(hex: string) returns (r: Js<(nat, seq<u128>)>)
    ensures r.Returned? <==> IsHex(hex)
    ensures IsHex(hex) ==> r.value == (|HexBytes(hex)|, Chunks(HexBytes(hex)))
  {
    if !IsHex(hex) {
      return Throws("canonical byte encoding must be hexadecimal");
    }
    var bytes := HexBytes(hex);
    var limbs := SplitBuffer(bytes);
    r := Returned((|bytes|, limbs));
  }

  /** JavaScript: big integers, reduced modulo the field by the hash. Same value as the Rust loop. */
  method CommitCanonicalBytes(H: Hash<Field>, domain: Field, hex: string) returns (r: Js<Field>)
    ensures r.Returned? <==> IsHex(hex)
    ensures IsHex(hex) && |HexBytes(hex)| < TWO_64 ==>
      && r.value == CommitBytes(H, domain, HexBytes(hex))
      && exists states :: IsStaging(H, domain, HexBytes(hex), states) && states[|states| - 1] == r.value
  {
    if IsHex(hex) && |HexBytes(hex)| < TWO_64 {
      CommitmentIsLastState(H, domain, HexBytes(hex));
    }
    var split :- SplitBytesIntoLittleEndianLimbs(hex);
    var byteLength, limbs := split.0, split.1;
    var state := AbsorbReduced(H, domain, byteLength, limbs);
    r := Returned(state);
  }

  method AbsorbReduced(H: Hash<Field>, domain: Field, byteLength: nat, limbs: seq<u128>) returns (state: Field)
    ensures byteLength < TWO_64 && |limbs| <= byteLength ==>
      state == State(H, H([domain, byteLength, |limbs|]), limbs, |limbs|)
  {
    NoReduction(byteLength);
    NoReduction(|limbs|);
    state := H([domain, byteLength % MODULUS, |limbs| % MODULUS]);
    for i := 0 to |limbs|
      invariant byteLength < TWO_64 && |limbs| <= byteLength ==>
        state == State(H, H([domain, byteLength, |limbs|]), limbs, i)
    {
      NoReduction(i);
      state := H([state, limbs[i], i % MODULUS]);
    }
  }

  lemma NoReduction(n: nat)
    ensures 0 <= n % MODULUS < MODULUS
    ensures n < TWO_64 ==> n % MODULUS == n
  {
  }

  // ---------- binding ----------

  function StepQueries(H: Hash<Field>, start: Field, limbs: seq<u128>, n: nat): seq<Query<Field>>
    requires n <= |limbs| <= TWO_64
  {
    if n == 0 then [] else StepQueries(H, start, limbs, n - 1) + [StepQuery(H, start, limbs, n - 1)]
  }

  /** Every input hashed while committing to `bytes`. */
  function ByteQueries(H: Hash<Field>, domain: Field, bytes: seq<byte>): seq<Query<Field>>
    requires |bytes| < TWO_64
  {
    var start := StartQuery(domain, bytes);
    [start] + StepQueries(H, H(start), Chunks(bytes), |Chunks(bytes)|)
  }

  lemma {:induction false} StepListed(H: Hash<Field>, start: Field, limbs: seq<u128>, n: nat, i: nat)
    requires i < n <= |limbs| <= TWO_64
    ensures StepQuery(H, start, limbs, i) in StepQueries(H, start, limbs, n)
  {
    if i == n - 1 {
    } else {
      StepListed(H, start, limbs, n - 1, i);
    }
  }

  /** Equal states after equally many limbs go back to equal starts and equal limbs. */
  lemma {:induction false} PeelEqual(H: Hash<Field>, start: Field, limbs: seq<u128>, start': Field, limbs': seq<u128>,
                                     n: nat)
    requires n <= |limbs| <= TWO_64 && n <= |limbs'| <= TWO_64
    requires State(H, start, limbs, n) == State(H, start', limbs', n)
    requires forall i, j ::
      0 <= i < n && 0 <= j < n && H(StepQuery(H, start, limbs, i)) == H(StepQuery(H, start', limbs', j)) ==>
      StepQuery(H, start, limbs, i) == StepQuery(H, start', limbs', j)
    ensures start == start' && limbs[..n] == limbs'[..n]
  {
    if n == 0 {
    } else {
      var q, q' := StepQuery(H, start, limbs, n - 1), StepQuery(H, start', limbs', n - 1);
      assert q[0] == q'[0] && q[1] == q'[1];
      PeelEqual(H, start, limbs, start', limbs', n - 1);
      assert limbs[..n] == limbs[..n - 1] + [limbs[n - 1]] && limbs'[..n] == limbs'[..n - 1] + [limbs'[n - 1]];
    }
  }

  lemma {:induction false} ChunksInjective(a: seq<byte>, b: seq<byte>)
    requires |a| == |b| && Chunks(a) == Chunks(b)
    ensures a == b
  {
    if |a| > 16 {
      assert Chunks(a)[0] == Chunks(b)[0] && Chunks(a)[1..] == Chunks(b)[1..];
      LeInjective(a[..16], b[..16], 256);
      ChunksInjective(a[16..], b[16..]);
      assert a == a[..16] + a[16..] && b == b[..16] + b[16..];
    } else if a != [] {
      assert Chunks(a)[0] == Chunks(b)[0];
      LeInjective(a, b, 256);
    }
  }

  /**
   The one way around the binding without a collision: one string is empty, the other is a single
   chunk of zero bytes, and the other's opening hash happens to be the empty string's domain tag.
   */
  ghost predicate TagPreimage(H: Hash<Field>, domain: Field, bytes: seq<byte>, domain': Field, bytes': seq<byte>)
  {
    && bytes == [] && 1 <= |bytes'| <= 16 && bytes' == seq(|bytes'|, _ => 0)
    && H([domain', |bytes'|, 1]) == domain
  }

  lemma TagPreimageCommits(H: Hash<Field>, domain: Field, bytes: seq<byte>, domain': Field, bytes': seq<byte>)
    requires TagPreimage(H, domain, bytes, domain', bytes')
    ensures CommitBytes(H, domain, bytes) == CommitBytes(H, domain', bytes')
  {
    LeZeros(|bytes'|, 256);
    var start := H(StartQuery(domain', bytes'));
    assert Chunks(bytes') == [0];
    assert StepQuery(H, start, [0], 0) == [domain, 0, 0] == StartQuery(domain, bytes);
  }

  /** A string with chunks and the empty string agree only through a preimage of the tag. */
  lemma EmptyAgainstChunks(H: Hash<Field>, domain: Field, domain': Field, bytes': seq<byte>)
    requires bytes' != [] && |bytes'| < TWO_64
    requires CollisionFree(H, ByteQueries(H, domain, []) + ByteQueries(H, domain', bytes'))
    requires CommitBytes(H, domain, []) == CommitBytes(H, domain', bytes')
    ensures TagPreimage(H, domain, [], domain', bytes')
  {
    var limbs, start := Chunks(bytes'), H(StartQuery(domain', bytes'));
    var n := |limbs| - 1;
    StepListed(H, start, limbs, n + 1, n);
    var q, q' := StartQuery(domain, []), StepQuery(H, start, limbs, n);
    SameInput(H, ByteQueries(H, domain, []) + ByteQueries(H, domain', bytes'), q, q');
    assert q[0] == q'[0] && q[1] == q'[1] && q[2] == q'[2];
    assert n == 0 && limbs[0] == 0;
    LeZeros(|bytes'|, 256);
    LeInjective(bytes', seq(|bytes'|, _ => 0), 256);
  }

  /** Two strings that both have chunks. */
  lemma ChunksAgainstChunks(H: Hash<Field>, domain: Field, bytes: seq<byte>, domain': Field, bytes': seq<byte>)
    requires bytes != [] && bytes' != [] && |bytes| < TWO_64 && |bytes'| < TWO_64
    requires CollisionFree(H, ByteQueries(H, domain, bytes) + ByteQueries(H, domain', bytes'))
    requires CommitBytes(H, domain, bytes) == CommitBytes(H, domain', bytes')
    ensures domain == domain' && bytes == bytes'
  {
    var all := ByteQueries(H, domain, bytes) + ByteQueries(H, domain', bytes');
    var limbs, limbs' := Chunks(bytes), Chunks(bytes');
    var start, start' := H(StartQuery(domain, bytes)), H(StartQuery(domain', bytes'));
    var n, n' := |limbs|, |limbs'|;
    StepListed(H, start, limbs, n, n - 1);
    StepListed(H, start', limbs', n', n' - 1);
    var q, q' := StepQuery(H, start, limbs, n - 1), StepQuery(H, start', limbs', n' - 1);
    SameInput(H, all, q, q');
    assert q[2] == q'[2];
    forall i, j | 0 <= i < n && 0 <= j < n && H(StepQuery(H, start, limbs, i)) == H(StepQuery(H, start', limbs', j))
      ensures StepQuery(H, start, limbs, i) == StepQuery(H, start', limbs', j)
    {
      StepListed(H, start, limbs, n, i);
      StepListed(H, start', limbs', n, j);
      SameInput(H, all, StepQuery(H, start, limbs, i), StepQuery(H, start', limbs', j));
    }
    PeelEqual(H, start, limbs, start', limbs', n);
    assert limbs[..n] == limbs && limbs'[..n] == limbs';
    StartsAgree(H, domain, bytes, domain', bytes', all);
    ChunksInjective(bytes, bytes');
  }

  lemma StartsAgree(H: Hash<Field>, domain: Field, bytes: seq<byte>, domain': Field, bytes': seq<byte>,
                    all: seq<Query<Field>>)
    requires |bytes| < TWO_64 && |bytes'| < TWO_64 && CollisionFree(H, all)
    requires StartQuery(domain, bytes) in all && StartQuery(domain', bytes') in all
    requires H(StartQuery(domain, bytes)) == H(StartQuery(domain', bytes'))
    ensures domain == domain' && |bytes| == |bytes'|
  {
    var q, q' := StartQuery(domain, bytes), StartQuery(domain', bytes');
    SameInput(H, all, q, q');
    assert q[0] == q'[0] && q[1] == q'[1];
  }

  /**
   The commitment binds domain and bytes: without a collision among the inputs actually hashed,
   two commitments agree if and only if domain and bytes agree, or a tag preimage is exhibited.
   */
  lemma CanonicalBytesBinding(H: Hash<Field>, domain: Field, bytes: seq<byte>, domain': Field, bytes': seq<byte>)
    requires |bytes| < TWO_64 && |bytes'| < TWO_64
    requires CollisionFree(H, ByteQueries(H, domain, bytes) + ByteQueries(H, domain', bytes'))
    ensures CommitBytes(H, domain, bytes) == CommitBytes(H, domain', bytes') <==>
      (domain == domain' && bytes == bytes') ||
      TagPreimage(H, domain, bytes, domain', bytes') || TagPreimage(H, domain', bytes', domain, bytes)
  {
    var here, there := ByteQueries(H, domain, bytes), ByteQueries(H, domain', bytes');
    if TagPreimage(H, domain, bytes, domain', bytes') {
      TagPreimageCommits(H, domain, bytes, domain', bytes');
    } else if TagPreimage(H, domain', bytes', domain, bytes) {
      TagPreimageCommits(H, domain', bytes', domain, bytes);
    } else if CommitBytes(H, domain, bytes) == CommitBytes(H, domain', bytes') {
      if bytes == [] && bytes' == [] {
        StartsAgree(H, domain, bytes, domain', bytes', here + there);
      } else if bytes == [] {
        EmptyAgainstChunks(H, domain, domain', bytes');
      } else if bytes' == [] {
        CollisionFreePart(H, here + there, there + here);
        EmptyAgainstChunks(H, domain', domain, bytes);
      } else {
        ChunksAgainstChunks(H, domain, bytes, domain', bytes');
      }
    }
  }
}
