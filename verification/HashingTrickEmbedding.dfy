/** The character-trigram hashing embedding (src/domain/ai/hashing-trick-embedding.ts). */
module HashingTrickEmbedding {
  import opened CosineSimilarity

  /** A UTF-16 code unit, as `charCodeAt` returns it. */
  type CodeUnit = n: int | 0 <= n < 0x1_0000
  type Text = seq<CodeUnit>

  const TWO_32 := 0x1_0000_0000
  type Uint32 = n: int | 0 <= n < 0x1_0000_0000

  const NGRAM_SIZE := 3
  const FNV_OFFSET: Uint32 := 0x811c9dc5
  const FNV_PRIME := 16777619

  // ----- 32-bit FNV-1a -----

  function ToUint32(x: int): Uint32 {
    x % TWO_32
  }

  function ToInt32(x: int): int {
    if x % TWO_32 < 0x8000_0000 then x % TWO_32 else x % TWO_32 - TWO_32
  }

  /** `x << k` for the shift distances of the code, with `factor` for two to the power of `k`. */
  function ShiftLeft(x: int, factor: int): int {
    ToInt32(x * factor)
  }

  function Xor(x: Uint32, c: CodeUnit): Uint32 {
    ((x as bv32) ^ (c as bv32)) as int
  }

  /** The published step of FNV-1a: exclusive-or, then multiply by the prime modulo two to the power of 32. */
  function FnvStep(hash: Uint32, c: CodeUnit): Uint32 {
    ToUint32(Xor(hash, c) * FNV_PRIME)
  }

  function Fnv1a(input: Text): Uint32 {
    if input == [] then FNV_OFFSET else FnvStep(Fnv1a(input[..|input| - 1]), input[|input| - 1])
  }

  lemma {:induction false} Int32Congruent(x: int) returns (q: int)
    ensures ToInt32(x) == x - TWO_32 * q
  {
    q := if x % TWO_32 < 0x8000_0000 then x / TWO_32 else x / TWO_32 + 1;
  }

  lemma {:induction false} SameRemainder(x: int, y: int, q: int)
    requires x == y - TWO_32 * q
    ensures ToUint32(x) == ToUint32(y)
  {
    assert x == TWO_32 * (y / TWO_32 - q) + y % TWO_32;
  }

  /** The shifts and adds on signed 32-bit values amount to one multiplication by the FNV prime. */
  lemma {:induction false} ShiftsMultiplyByPrime(u: Uint32)
    ensures var h := ToInt32(u);
            ToUint32(h + ShiftLeft(h, 2) + ShiftLeft(h, 16) + ShiftLeft(h, 128) + ShiftLeft(h, 256)
                       + ShiftLeft(h, 0x100_0000))
            == ToUint32(u * FNV_PRIME)
  {
    hide ToUint32, ToInt32;
    var h := ToInt32(u);
    var q0 := Int32Congruent(u);
    var q1 := Int32Congruent(h * 2);
    var q2 := Int32Congruent(h * 16);
    var q3 := Int32Congruent(h * 128);
    var q4 := Int32Congruent(h * 256);
    var q5 := Int32Congruent(h * 0x100_0000);
    var sum := h + ShiftLeft(h, 2) + ShiftLeft(h, 16) + ShiftLeft(h, 128) + ShiftLeft(h, 256)
                       + ShiftLeft(h, 0x100_0000);
    SameRemainder(sum, u * FNV_PRIME, q0 * FNV_PRIME + q1 + q2 + q3 + q4 + q5);
  }

  /** `fnv1a32`. Exclusive-or yields a signed value; `>>> 0` makes the sum unsigned again. */
  method Fnv1a32(input: Text) returns (hash: Uint32)
    ensures hash == Fnv1a(input)
  {
    hide ToUint32, ToInt32, Xor;
    hash := FNV_OFFSET;
    for i := 0 to |input|
      invariant hash == Fnv1a(input[..i])
    {
      var h := ToInt32(Xor(hash, input[i]));
      ShiftsMultiplyByPrime(Xor(hash, input[i]));
      assert input[..i + 1][..i] == input[..i];
      hash := ToUint32(h + ShiftLeft(h, 2) + ShiftLeft(h, 16) + ShiftLeft(h, 128) + ShiftLeft(h, 256)
                       + ShiftLeft(h, 0x100_0000));
    }
    assert input[..|input|] == input;
  }

  // ----- trigrams -----

  function Trigrams(text: Text): (grams: seq<Text>)
    ensures grams == [] <==> text == []
  {
    if |text| == 0 then []
    else if |text| < NGRAM_SIZE then [text]
    else seq(|text| - NGRAM_SIZE + 1, i requires 0 <= i <= |text| - NGRAM_SIZE => text[i..i + NGRAM_SIZE])
  }

  /** Every three neighbouring code units, from left to right; a shorter text is its own only gram. */
  lemma {:induction false} TrigramsAreWindows(text: Text)
    ensures |text| >= 3 ==>
              |Trigrams(text)| == |text| - 2
              && forall i :: 0 <= i < |text| - 2 ==> Trigrams(text)[i] == [text[i], text[i + 1], text[i + 2]]
    ensures 0 < |text| < 3 ==> Trigrams(text) == [text]
  {
    if |text| >= 3 {
      forall i | 0 <= i < |text| - 2
        ensures Trigrams(text)[i] == [text[i], text[i + 1], text[i + 2]]
      {
        assert text[i..i + 3] == [text[i], text[i + 1], text[i + 2]];
      }
    }
  }

  method ExtractTrigrams(text: Text) returns (grams: seq<Text>)
    ensures grams == Trigrams(text)
  {
    if |text| == 0 {
      return [];
    }
    if |text| < NGRAM_SIZE {
      return [text];
    }
    grams := [];
    var i := 0;
    while i <= |text| - NGRAM_SIZE
      invariant 0 <= i <= |text| - NGRAM_SIZE + 1 && grams == Trigrams(text)[..i]
    {
      grams := grams + [text[i..i + NGRAM_SIZE]];
      i := i + 1;
    }
  }

  // ----- the vector of signed counts -----

  function Bucket(hash: Uint32, dimension: int): (i: nat)
    requires dimension > 0
    ensures i < dimension
  {
    hash % dimension
  }

  /** The sign comes from the lowest bit of the hash. */
  function Sign(hash: Uint32): int {
    if hash % 2 == 1 then 1 else -1
  }

  /** The signed count of bucket `i` over the hashes of some trigrams. */
  function Count(hashes: seq<Uint32>, dimension: int, i: nat): int
    requires dimension > 0
  {
    if hashes == [] then 0
    else
      var h := hashes[|hashes| - 1];
      Count(hashes[..|hashes| - 1], dimension, i) + if Bucket(h, dimension) == i then Sign(h) else 0
  }

  function Counts(hashes: seq<Uint32>, dimension: int): (v: seq<int>)
    requires dimension > 0
    ensures |v| == dimension
    ensures forall i :: 0 <= i < dimension ==> v[i] == Count(hashes, dimension, i)
  {
    seq(dimension, i requires 0 <= i < dimension => Count(hashes, dimension, i))
  }

  function Hashes(grams: seq<Text>): (r: seq<Uint32>)
    ensures |r| == |grams|
    ensures forall i :: 0 <= i < |grams| ==> r[i] == Fnv1a(grams[i])
  {
    seq(|grams|, i requires 0 <= i < |grams| => Fnv1a(grams[i]))
  }

  function HashesOf(text: Text): seq<Uint32> {
    Hashes(Trigrams(text))
  }

  function ToReals(v: seq<int>): (r: Vector)
    ensures |r| == |v|
    ensures forall i :: 0 <= i < |v| ==> r[i] == v[i] as real
  {
    seq(|v|, i requires 0 <= i < |v| => v[i] as real)
  }

  /** The embedding before normalization. */
  function RawEmbedding(text: Text, dimension: int): Vector
    requires dimension > 0
  {
    ToReals(Counts(HashesOf(text), dimension))
  }

  lemma {:induction false} CountStep(hashes: seq<Uint32>, k: nat, dimension: int, i: nat)
    requires dimension > 0 && k < |hashes|
    ensures Count(hashes[..k + 1], dimension, i)
            == Count(hashes[..k], dimension, i) + if Bucket(hashes[k], dimension) == i then Sign(hashes[k]) else 0
  {
    assert hashes[..k + 1][..k] == hashes[..k];
  }

  /** The accumulation loop of `computeHashingTrickEmbedding`, up to the normalization. */
  method AccumulateCounts(text: Text, dimension: int) returns (vector: array<int>)
    requires dimension > 0
    ensures fresh(vector) && vector[..] == Counts(HashesOf(text), dimension)
  {
    hide Fnv1a, Trigrams, Bucket, Sign;
    vector := new int[dimension](_ => 0);
    var trigrams := ExtractTrigrams(text);
    ghost var hashes := HashesOf(text);
    for k := 0 to |trigrams|
      invariant forall i :: 0 <= i < dimension ==> vector[i] == Count(hashes[..k], dimension, i)
    {
      var hash := Fnv1a32(trigrams[k]);
      var index := Bucket(hash, dimension);
      forall i | 0 <= i < dimension
        ensures Count(hashes[..k + 1], dimension, i)
                == Count(hashes[..k], dimension, i) + if index == i then Sign(hash) else 0
      {
        CountStep(hashes, k, dimension, i);
      }
      vector[index] := vector[index] + Sign(hash);
    }
    assert hashes[..|trigrams|] == hashes;
  }

  // ----- the sign is no independent bit -----

  /**
    * Hashes that share a bucket always carry the same sign exactly when the dimension is even (or so large that no two
    * hashes share a bucket): the sign bit is the parity of the hash, which an even dimension leaves in the index.
    */
  lemma {:induction false} SignIsDecidedByIndexExactly(dimension: int)
    requires dimension > 0
    ensures (forall g: Uint32, h: Uint32 :: Bucket(g, dimension) == Bucket(h, dimension) ==> Sign(g) == Sign(h))
            <==> dimension % 2 == 0 || dimension >= TWO_32
  {
    hide Bucket, Sign;
    if dimension % 2 == 0 {
      forall g: Uint32, h: Uint32 | Bucket(g, dimension) == Bucket(h, dimension)
        ensures Sign(g) == Sign(h)
      {
        SameSignInBucket(g, h, dimension);
      }
    } else if dimension >= TWO_32 {
      forall h: Uint32
        ensures Bucket(h, dimension) == h
      {
        OwnBucket(h, dimension);
      }
    } else {
      ZeroAndDimension(dimension);
    }
  }

  lemma {:induction false} SameSignInBucket(g: Uint32, h: Uint32, dimension: int)
    requires dimension > 0 && dimension % 2 == 0 && Bucket(g, dimension) == Bucket(h, dimension)
    ensures Sign(g) == Sign(h)
  {
    EvenRemainder(g, dimension);
    EvenRemainder(h, dimension);
  }

  lemma {:induction false} OwnBucket(h: Uint32, dimension: int)
    requires dimension >= TWO_32
    ensures Bucket(h, dimension) == h
  {
  }

  lemma {:induction false} ZeroAndDimension(dimension: int)
    requires 0 < dimension < TWO_32 && dimension % 2 == 1
    ensures Bucket(0, dimension) == Bucket(dimension, dimension) && Sign(0) != Sign(dimension)
  {
  }

  lemma {:induction false} EvenRemainder(h: int, dimension: int)
    requires h >= 0 && dimension > 0 && dimension % 2 == 0
    ensures (h % dimension) % 2 == h % 2
  {
    var q, e := h / dimension, dimension / 2;
    assert h == q * dimension + h % dimension;
    assert q * dimension == 2 * (q * e);
  }

  /** How many of the hashes fall into bucket `i`. */
  function Hits(hashes: seq<Uint32>, dimension: int, i: nat): nat
    requires dimension > 0
  {
    if hashes == [] then 0
    else Hits(hashes[..|hashes| - 1], dimension, i) + if Bucket(hashes[|hashes| - 1], dimension) == i then 1 else 0
  }

  /** With an even dimension nothing cancels: a bucket holds its number of hits, with plus if odd, with minus if even. */
  lemma {:induction false} CountsNeverCancel(hashes: seq<Uint32>, dimension: int, i: nat)
    requires dimension > 0 && dimension % 2 == 0 && i < dimension
    ensures Count(hashes, dimension, i) == if i % 2 == 1 then Hits(hashes, dimension, i) else 0 - Hits(hashes, dimension, i)
  {
    if hashes != [] {
      CountsNeverCancel(hashes[..|hashes| - 1], dimension, i);
      EvenRemainder(hashes[|hashes| - 1], dimension);
    }
  }

  lemma {:induction false} HitsExactly(hashes: seq<Uint32>, dimension: int, i: nat)
    requires dimension > 0
    ensures Hits(hashes, dimension, i) > 0 <==> exists k :: 0 <= k < |hashes| && Bucket(hashes[k], dimension) == i
  {
    hide Bucket;
    if hashes != [] {
      var front := hashes[..|hashes| - 1];
      HitsExactly(front, dimension, i);
      assert forall k :: 0 <= k < |front| ==> front[k] == hashes[k];
      if k :| 0 <= k < |front| && Bucket(front[k], dimension) == i {
        assert Bucket(hashes[k], dimension) == i;
      }
      if k :| 0 <= k < |hashes| && Bucket(hashes[k], dimension) == i {
        assert k < |front| ==> Bucket(front[k], dimension) == i;
      }
    }
  }

  // ----- similarity of embeddings -----

  ghost predicate AlignedAt(a: Vector, b: Vector, i: nat)
    requires i < |a| && i < |b|
  {
    a[i] * b[i] >= 0.0
  }

  ghost predicate MeetAt(a: Vector, b: Vector, i: nat)
    requires i < |a| && i < |b|
  {
    a[i] * b[i] > 0.0
  }

  lemma {:induction false} DotOfAligned(a: Vector, b: Vector)
    requires |a| == |b| && forall i :: 0 <= i < |a| ==> AlignedAt(a, b, i)
    ensures Dot(a, b) >= 0.0
    ensures Dot(a, b) > 0.0 <==> exists i :: 0 <= i < |a| && MeetAt(a, b, i)
  {
    if a != [] {
      var a', b', n := a[..|a| - 1], b[..|b| - 1], |a| - 1;
      forall i | 0 <= i < n
        ensures AlignedAt(a', b', i) && (MeetAt(a', b', i) <==> MeetAt(a, b, i))
      {
        assert a'[i] == a[i] && b'[i] == b[i] && AlignedAt(a, b, i);
      }
      DotOfAligned(a', b');
      assert AlignedAt(a, b, n);
      assert Dot(a, b) > 0.0 <==> Dot(a', b') > 0.0 || MeetAt(a, b, n);
    }
  }

  /** Some trigram of each text falls into the same bucket. */
  ghost predicate ShareBucket(g: seq<Uint32>, h: seq<Uint32>, dimension: int)
    requires dimension > 0
  {
    exists i, j :: 0 <= i < |g| && 0 <= j < |h| && Bucket(g[i], dimension) == Bucket(h[j], dimension)
  }

  ghost predicate BothHit(g: seq<Uint32>, h: seq<Uint32>, dimension: int, i: nat)
    requires dimension > 0
  {
    Hits(g, dimension, i) > 0 && Hits(h, dimension, i) > 0
  }

  lemma {:induction false} ProductOfCounts(g: seq<Uint32>, h: seq<Uint32>, dimension: int, i: nat)
    requires dimension > 0 && dimension % 2 == 0 && i < dimension
    ensures var x, y := ToReals(Counts(g, dimension))[i], ToReals(Counts(h, dimension))[i];
            x * y >= 0.0 && (x * y > 0.0 <==> BothHit(g, h, dimension, i))
  {
    hide Bucket, Hits, Count;
    CountsNeverCancel(g, dimension, i);
    CountsNeverCancel(h, dimension, i);
    SameSignProduct(Hits(g, dimension, i), Hits(h, dimension, i));
  }

  lemma {:induction false} SameSignProduct(m: int, n: int)
    requires m >= 0 && n >= 0
    ensures (m as real) * (n as real) == ((0 - m) as real) * ((0 - n) as real) >= 0.0
    ensures (m as real) * (n as real) > 0.0 <==> m > 0 && n > 0
  {
  }

  /**
    * With an even dimension, as the default of 256, no two texts have a negative similarity, and it is positive exactly
    * when some trigrams of the two texts share a bucket; in particular whenever they share a trigram.
    */
  lemma {:induction false} EvenDimensionNeverOpposes(s: Text, t: Text, dimension: int)
    requires dimension > 0 && dimension % 2 == 0
    ensures Dot(RawEmbedding(s, dimension), RawEmbedding(t, dimension)) >= 0.0
    ensures Dot(RawEmbedding(s, dimension), RawEmbedding(t, dimension)) > 0.0
            <==> ShareBucket(HashesOf(s), HashesOf(t), dimension)
  {
    hide Bucket, BothHit, Count, Dot, HashesOf, AlignedAt, MeetAt, RawEmbedding;
    var g, h := HashesOf(s), HashesOf(t);
    var a, b := RawEmbedding(s, dimension), RawEmbedding(t, dimension);
    EmbeddingLength(s, dimension);
    EmbeddingLength(t, dimension);
    forall i | 0 <= i < dimension
      ensures AlignedAt(a, b, i) && (MeetAt(a, b, i) <==> BothHit(g, h, dimension, i))
    {
      EmbeddingsMeetExactly(s, t, dimension, i);
    }
    DotOfAligned(a, b);
    SharedBucketExactly(g, h, dimension);
    if i: nat :| i < dimension && BothHit(g, h, dimension, i) {
      assert MeetAt(a, b, i);
    }
  }

  lemma {:induction false} EmbeddingLength(t: Text, dimension: int)
    requires dimension > 0
    ensures |RawEmbedding(t, dimension)| == dimension
  {
  }

  lemma {:induction false} EmbeddingsMeetExactly(s: Text, t: Text, dimension: int, i: nat)
    requires dimension > 0 && dimension % 2 == 0 && i < dimension
    ensures var a, b := RawEmbedding(s, dimension), RawEmbedding(t, dimension);
            AlignedAt(a, b, i)
            && (MeetAt(a, b, i) <==> BothHit(HashesOf(s), HashesOf(t), dimension, i))
  {
    hide Bucket, Hits, Count, HashesOf;
    ProductOfCounts(HashesOf(s), HashesOf(t), dimension, i);
  }

  lemma {:induction false} SharedBucketExactly(g: seq<Uint32>, h: seq<Uint32>, dimension: int)
    requires dimension > 0
    ensures ShareBucket(g, h, dimension)
            <==> exists i: nat :: i < dimension && BothHit(g, h, dimension, i)
  {
    hide Bucket, Hits;
    if ShareBucket(g, h, dimension) {
      var i, j :| 0 <= i < |g| && 0 <= j < |h| && Bucket(g[i], dimension) == Bucket(h[j], dimension);
      var k := Bucket(g[i], dimension);
      HitsExactly(g, dimension, k);
      HitsExactly(h, dimension, k);
      assert BothHit(g, h, dimension, k);
    }
    if k: nat :| k < dimension && BothHit(g, h, dimension, k) {
      HitsExactly(g, dimension, k);
      HitsExactly(h, dimension, k);
    }
  }

  lemma {:induction false} SharedTrigramSharesBucket(s: Text, t: Text, gram: Text, dimension: int)
    requires dimension > 0 && gram in Trigrams(s) && gram in Trigrams(t)
    ensures ShareBucket(HashesOf(s), HashesOf(t), dimension)
  {
    hide Bucket, Trigrams;
    var i :| 0 <= i < |Trigrams(s)| && Trigrams(s)[i] == gram;
    var j :| 0 <= j < |Trigrams(t)| && Trigrams(t)[j] == gram;
    assert HashesOf(s)[i] == HashesOf(t)[j];
  }

  /** With an even dimension only the empty text has the zero vector, so every other text gets a unit vector. */
  lemma {:induction false} NonEmptyTextHasDirection(t: Text, dimension: int)
    requires dimension > 0 && dimension % 2 == 0
    ensures NormSquared(RawEmbedding(t, dimension)) > 0.0 <==> t != []
  {
    hide Bucket, RawEmbedding, Dot;
    EvenDimensionNeverOpposes(t, t, dimension);
    if t != [] {
      assert Trigrams(t)[0] in Trigrams(t);
      SharedTrigramSharesBucket(t, t, Trigrams(t)[0], dimension);
    }
  }

  lemma {:induction false} RawSimilarityRange(s: Text, t: Text, dimension: int, sqrt: real -> real)
    requires dimension > 0 && dimension % 2 == 0 && IsSquareRoot(sqrt)
    ensures var similarity := Cosine(RawEmbedding(s, dimension), RawEmbedding(t, dimension), sqrt);
            0.0 <= similarity <= 1.0 && (similarity == 0.0 <==> !ShareBucket(HashesOf(s), HashesOf(t), dimension))
  {
    hide Bucket, RawEmbedding, Dot, ShareBucket;
    EmbeddingLength(s, dimension);
    EmbeddingLength(t, dimension);
    var a, b := RawEmbedding(s, dimension), RawEmbedding(t, dimension);
    EvenDimensionNeverOpposes(s, t, dimension);
    CosineInRange(a, b, sqrt);
    NormIsNonNegative(a);
    NormIsNonNegative(b);
    CauchySchwarz(a, b);
    SignOfQuotient(Dot(a, b), NormSquared(a), NormSquared(b), sqrt);
  }

  lemma {:induction false} SignOfQuotient(dot: real, n: real, m: real, sqrt: real -> real)
    requires IsSquareRoot(sqrt) && dot >= 0.0 && n >= 0.0 && m >= 0.0 && dot * dot <= n * m
    ensures Quotient(dot, n, m, sqrt) >= 0.0 && (Quotient(dot, n, m, sqrt) == 0.0 <==> dot == 0.0)
  {
    if n > 0.0 && m > 0.0 {
      RootsArePositive(n, m, sqrt);
      PositiveDivision(dot, sqrt(n) * sqrt(m));
    } else {
      NoSquareBelowZero(dot, n, m);
    }
  }

  lemma {:induction false} PositiveDivision(x: real, r: real)
    requires x >= 0.0 && r > 0.0
    ensures x / r >= 0.0 && (x / r == 0.0 <==> x == 0.0)
  {
  }

  lemma {:induction false} NoSquareBelowZero(x: real, n: real, m: real)
    requires (n == 0.0 || m == 0.0) && x * x <= n * m
    ensures x == 0.0
  {
    assert n * m == 0.0;
    SquareIsNonNegative(x);
    ZeroSquare(x);
  }

  /** Two hashes of one bucket and opposite sign erase each other. */
  lemma {:induction false} OppositePairCancels(g: Uint32, h: Uint32, dimension: int, i: nat)
    requires dimension > 0 && Bucket(g, dimension) == Bucket(h, dimension) && Sign(g) != Sign(h)
    ensures Count([g, h], dimension, i) == 0
  {
    hide Bucket;
    assert [g, h][..1] == [g] && [g][..0] == [];
    assert Count([g], dimension, i) == if Bucket(g, dimension) == i then Sign(g) else 0;
  }

  /** For every odd dimension there are hash values that do so. */
  lemma {:induction false} OddDimensionCanCancel(dimension: int, i: nat)
    requires 0 < dimension < TWO_32 && dimension % 2 == 1
    ensures Count([0, dimension], dimension, i) == 0
  {
    ZeroAndDimension(dimension);
    OppositePairCancels(0, dimension, dimension, i);
  }

  // ----- normalization -----

  function Normalized(v: Vector, sqrt: real -> real): (r: Vector)
    requires IsSquareRoot(sqrt)
    ensures |r| == |v|
  {
    var sumOfSquares := NormSquared(v);
    NormIsNonNegative(v);
    if sumOfSquares == 0.0 then v
    else
      RootsArePositive(sumOfSquares, sumOfSquares, sqrt);
      seq(|v|, i requires 0 <= i < |v| => v[i] / sqrt(sumOfSquares))
  }

  method L2Normalize(vector: Vector, sqrt: real -> real) returns (r: Vector)
    requires IsSquareRoot(sqrt)
    ensures r == Normalized(vector, sqrt)
  {
    var sumOfSquares := 0.0;
    for i := 0 to |vector|
      invariant sumOfSquares == NormSquared(vector[..i])
    {
      assert vector[..i + 1][..i] == vector[..i];
      sumOfSquares := sumOfSquares + vector[i] * vector[i];
    }
    assert vector[..|vector|] == vector;
    NormIsNonNegative(vector);
    if sumOfSquares == 0.0 {
      return vector;
    }
    RootsArePositive(sumOfSquares, sumOfSquares, sqrt);
    var norm := sqrt(sumOfSquares);
    r := seq(|vector|, i requires 0 <= i < |vector| => vector[i] / norm);
  }

  lemma {:induction false} NormalizedIsScaled(v: Vector, sqrt: real -> real)
    requires IsSquareRoot(sqrt) && NormSquared(v) > 0.0
    ensures sqrt(NormSquared(v)) > 0.0
    ensures Normalized(v, sqrt) == Scale(1.0 / sqrt(NormSquared(v)), v)
  {
    RootsArePositive(NormSquared(v), NormSquared(v), sqrt);
    var root := sqrt(NormSquared(v));
    forall i | 0 <= i < |v|
      ensures Normalized(v, sqrt)[i] == Scale(1.0 / root, v)[i]
    {
      DivideIsScale(v[i], root);
    }
  }

  lemma {:induction false} DivideIsScale(x: real, r: real)
    requires r > 0.0
    ensures x / r == (1.0 / r) * x
  {
  }

  lemma {:induction false} UnitNorm(k: real, s: real, n: real)
    requires s > 0.0 && s * s == n && k == 1.0 / s
    ensures k > 0.0 && k * (k * n) == 1.0
  {
    assert k * s == 1.0;
    assert k * (k * (s * s)) == (k * s) * (k * s);
  }

  /** Normalizing makes a non-zero vector a unit vector and leaves its similarity to every vector as it was. */
  lemma {:induction false} NormalizingKeepsSimilarity(v: Vector, w: Vector, sqrt: real -> real)
    requires IsSquareRoot(sqrt) && NormSquared(v) > 0.0 && |v| == |w|
    ensures NormSquared(Normalized(v, sqrt)) == 1.0
    ensures Cosine(Normalized(v, sqrt), w, sqrt) == Cosine(v, w, sqrt)
  {
    hide Dot, Normalized;
    NormalizedIsScaled(v, sqrt);
    RootsArePositive(NormSquared(v), NormSquared(v), sqrt);
    var root := sqrt(NormSquared(v));
    UnitNorm(1.0 / root, root, NormSquared(v));
    NormOfScaled(1.0 / root, v);
    CosineIgnoresScale(1.0 / root, v, w, sqrt);
  }

  // ----- the embedding -----

  function Embedding(text: Text, dimension: int, sqrt: real -> real): (r: Vector)
    requires dimension > 0 && IsSquareRoot(sqrt)
    ensures |r| == dimension
  {
    Normalized(RawEmbedding(text, dimension), sqrt)
  }

  method ComputeHashingTrickEmbedding(text: Text, dimension: int, sqrt: real -> real) returns (r: Vector)
    requires dimension > 0 && IsSquareRoot(sqrt)
    ensures r == Embedding(text, dimension, sqrt)
  {
    var vector := AccumulateCounts(text, dimension);
    r := L2Normalize(ToReals(vector[..]), sqrt);
  }

  ghost predicate IsUnitOrZero(v: Vector) {
    NormSquared(v) == 1.0 || NormSquared(v) == 0.0
  }

  lemma {:induction false} EmbeddingIsUnitOrZero(t: Text, dimension: int, sqrt: real -> real)
    requires dimension > 0 && IsSquareRoot(sqrt)
    ensures IsUnitOrZero(Embedding(t, dimension, sqrt))
  {
    hide RawEmbedding, Dot;
    var raw := RawEmbedding(t, dimension);
    NormIsNonNegative(raw);
    if NormSquared(raw) > 0.0 {
      NormalizingKeepsSimilarity(raw, raw, sqrt);
    }
  }

  /** For vectors of length one, or zero ones, the cosine is the plain inner product. */
  lemma {:induction false} UnitCosineIsDot(a: Vector, b: Vector, sqrt: real -> real)
    requires |a| == |b| && IsSquareRoot(sqrt) && IsUnitOrZero(a) && IsUnitOrZero(b)
    ensures Cosine(a, b, sqrt) == Dot(a, b)
  {
    hide Dot;
    if NormSquared(b) == 0.0 {
      ZeroNormZeroDot(a, b);
    } else if NormSquared(a) == 0.0 {
      DotIsSymmetric(a, b);
      ZeroNormZeroDot(b, a);
    } else {
      RootIsUnique(1.0, 1.0, sqrt);
    }
  }

  lemma {:induction false} SimilarityOfNormalized(v: Vector, w: Vector, sqrt: real -> real)
    requires IsSquareRoot(sqrt) && |v| == |w|
    ensures Cosine(Normalized(v, sqrt), Normalized(w, sqrt), sqrt) == Cosine(v, w, sqrt)
  {
    hide Dot, Cosine;
    SimilarityOfOneNormalized(v, Normalized(w, sqrt), sqrt);
    CosineIsSymmetric(v, Normalized(w, sqrt), sqrt);
    SimilarityOfOneNormalized(w, v, sqrt);
    CosineIsSymmetric(w, v, sqrt);
  }

  lemma {:induction false} SimilarityOfOneNormalized(v: Vector, w: Vector, sqrt: real -> real)
    requires IsSquareRoot(sqrt) && |v| == |w|
    ensures Cosine(Normalized(v, sqrt), w, sqrt) == Cosine(v, w, sqrt)
  {
    hide Dot, Cosine;
    NormIsNonNegative(v);
    if NormSquared(v) > 0.0 {
      NormalizingKeepsSimilarity(v, w, sqrt);
    }
  }

  /**
    * The similarity of two texts, for an even dimension: it is the plain inner product of their embeddings, lies in
    * [0, 1], and is 0 exactly when no trigrams of the two share a bucket.
    */
  lemma {:induction false} TextSimilarity(s: Text, t: Text, dimension: int, sqrt: real -> real)
    requires dimension > 0 && dimension % 2 == 0 && IsSquareRoot(sqrt)
    ensures var a, b := Embedding(s, dimension, sqrt), Embedding(t, dimension, sqrt);
            && Cosine(a, b, sqrt) == Dot(a, b) && 0.0 <= Dot(a, b) <= 1.0
            && (Dot(a, b) == 0.0 <==> !ShareBucket(HashesOf(s), HashesOf(t), dimension))
  {
    hide RawEmbedding, Dot, Cosine, ShareBucket, Normalized;
    EmbeddingLength(s, dimension);
    EmbeddingLength(t, dimension);
    EmbeddingIsUnitOrZero(s, dimension, sqrt);
    EmbeddingIsUnitOrZero(t, dimension, sqrt);
    UnitCosineIsDot(Embedding(s, dimension, sqrt), Embedding(t, dimension, sqrt), sqrt);
    SimilarityOfNormalized(RawEmbedding(s, dimension), RawEmbedding(t, dimension), sqrt);
    RawSimilarityRange(s, t, dimension, sqrt);
  }

  /** A text with any content is as similar to itself as can be. */
  lemma {:induction false} TextSimilarityWithItself(t: Text, dimension: int, sqrt: real -> real)
    requires dimension > 0 && dimension % 2 == 0 && IsSquareRoot(sqrt)
    ensures Dot(Embedding(t, dimension, sqrt), Embedding(t, dimension, sqrt)) == if t == [] then 0.0 else 1.0
  {
    hide RawEmbedding, Dot;
    NonEmptyTextHasDirection(t, dimension);
    EmbeddingLength(t, dimension);
    var raw := RawEmbedding(t, dimension);
    NormIsNonNegative(raw);
    if t != [] {
      NormalizingKeepsSimilarity(raw, raw, sqrt);
    }
  }

  // ----- a text that an odd dimension erases -----

  lemma {:induction false} StepIs(h: Uint32, c: CodeUnit, x: Uint32, next: Uint32)
    requires Xor(h, c) == x && ToUint32(x * FNV_PRIME) == next
    ensures FnvStep(h, c) == next
  {
  }

  lemma {:induction false} HashOfAee()
    ensures Fnv1a([97, 101, 101]) == 540747402
  {
    hide FnvStep;
    var t: Text := [97, 101, 101];
    assert t[..2][..1] == t[..1] && t[..1][..0] == [] && t[..2][1] == 101 && t[..1][0] == 97;
    StepIs(2166136261, 97, 2166136228, 3826002220);
    StepIs(3826002220, 101, 3826002249, 1210383851);
    StepIs(1210383851, 101, 1210383758, 540747402);
    assert Fnv1a(t[..1]) == 3826002220;
    assert Fnv1a(t[..2]) == 1210383851;
  }

  lemma {:induction false} HashOfEef()
    ensures Fnv1a([101, 101, 102]) == 2323074747
  {
    hide FnvStep;
    var t: Text := [101, 101, 102];
    assert t[..2][..1] == t[..1] && t[..1][..0] == [] && t[..2][1] == 101 && t[..1][0] == 101;
    StepIs(2166136261, 101, 2166136224, 3758891744);
    StepIs(3758891744, 101, 3758891653, 941250399);
    StepIs(941250399, 102, 941250361, 2323074747);
    assert Fnv1a(t[..1]) == 3758891744;
    assert Fnv1a(t[..2]) == 941250399;
  }

  lemma {:induction false} ZeroNorm(a: Vector)
    requires forall i :: 0 <= i < |a| ==> a[i] == 0.0
    ensures NormSquared(a) == 0.0
  {
    if a != [] {
      ZeroNorm(a[..|a| - 1]);
    }
  }

  /** The text "aeef". */
  const ERASED: Text := [97, 101, 101, 102]

  lemma {:induction false} HashesOfErased()
    ensures HashesOf(ERASED) == [540747402, 2323074747]
  {
    hide Fnv1a;
    HashOfAee();
    HashOfEef();
    assert ERASED[0..3] == [97, 101, 101] && ERASED[1..4] == [101, 101, 102];
    assert Trigrams(ERASED) == [[97, 101, 101], [101, 101, 102]];
  }

  /** With dimension 255 the two trigrams of "aeef" erase each other: a text with content that resembles nothing. */
  lemma {:induction false} OddDimensionCanEraseText(t: Text, sqrt: real -> real)
    requires IsSquareRoot(sqrt)
    ensures Dot(Embedding(ERASED, 255, sqrt), Embedding(t, 255, sqrt)) == 0.0
  {
    hide Dot, HashesOf, Count;
    var raw := RawEmbedding(ERASED, 255);
    HashesOfErased();
    forall i | 0 <= i < 255
      ensures raw[i] == 0.0
    {
      OppositePairCancels(540747402, 2323074747, 255, i);
    }
    ZeroNorm(raw);
    DotIsSymmetric(raw, Embedding(t, 255, sqrt));
    ZeroNormZeroDot(Embedding(t, 255, sqrt), raw);
  }
}
