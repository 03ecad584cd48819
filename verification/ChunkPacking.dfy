/** The greedy token-budget packing of the document chunker (src/domain/ai/document-chunker.ts, lines 168-202). */
module ChunkPacking {
  import opened Seqs

  const CHUNK_TARGET_TOKENS := 600

  function Total<T>(items: seq<T>, weight: T -> nat): nat {
    if items == [] then 0 else Total(items[..|items| - 1], weight) + weight(items[|items| - 1])
  }

  /** A chunk the packer may form: one paragraph of any size, or several within the target. */
  predicate Admissible<T>(group: seq<T>, weight: T -> nat) {
    |group| == 1 || (|group| > 1 && Total(group, weight) <= CHUNK_TARGET_TOKENS)
  }

  /** `groups` cuts `items` into consecutive admissible groups. */
  ghost predicate IsGrouping<T>(groups: seq<seq<T>>, items: seq<T>, weight: T -> nat) {
    Flatten(groups) == items && forall g :: g in groups ==> Admissible(g, weight)
  }

  /** How many leading items end up in the first bucket once `k` of them are in it. */
  function Take<T>(items: seq<T>, k: nat, weight: T -> nat): (n: nat)
    requires 1 <= k <= |items|
    ensures k <= n <= |items|
    decreases |items| - k
  {
    if k == |items| || Total(items[..k], weight) + weight(items[k]) > CHUNK_TARGET_TOKENS then k
    else Take(items, k + 1, weight)
  }

  function Greedy<T>(items: seq<T>, weight: T -> nat): seq<seq<T>> {
    if items == [] then []
    else
      var k := Take(items, 1, weight);
      [items[..k]] + Greedy(items[k..], weight)
  }

  lemma {:induction false} TotalStep<T>(items: seq<T>, k: nat, weight: T -> nat)
    requires k < |items|
    ensures Total(items[..k + 1], weight) == Total(items[..k], weight) + weight(items[k])
  {
    assert items[..k + 1][..k] == items[..k];
  }

  lemma {:induction false} TotalOfPrefix<T>(items: seq<T>, k: nat, weight: T -> nat)
    requires k <= |items|
    ensures Total(items[..k], weight) <= Total(items, weight)
  {
    if k < |items| {
      TotalOfPrefix(items[..|items| - 1], k, weight);
      assert items[..|items| - 1][..k] == items[..k];
    } else {
      assert items[..k] == items;
    }
  }

  lemma {:induction false} TotalOfSuffix<T>(items: seq<T>, n: nat, weight: T -> nat)
    requires n <= |items|
    ensures Total(items[n..], weight) <= Total(items, weight)
  {
    if n < |items| {
      TotalOfSuffix(items[..|items| - 1], n, weight);
      assert items[n..][..|items[n..]| - 1] == items[..|items| - 1][n..];
    }
  }

  lemma {:induction false} TakeIsWithinTarget<T>(items: seq<T>, k: nat, weight: T -> nat)
    requires 1 <= k <= |items| && Admissible(items[..k], weight)
    ensures Admissible(items[..Take(items, k, weight)], weight)
    decreases |items| - k
  {
    if k < |items| && Total(items[..k], weight) + weight(items[k]) <= CHUNK_TARGET_TOKENS {
      TotalStep(items, k, weight);
      TakeIsWithinTarget(items, k + 1, weight);
    }
  }

  /** The first bucket takes at least as many items as any admissible group at the front. */
  lemma {:induction false} TakeIsLongest<T>(items: seq<T>, k: nat, m: nat, weight: T -> nat)
    requires 1 <= k <= m <= |items| && Admissible(items[..m], weight)
    ensures m <= Take(items, k, weight)
    decreases m - k
  {
    if k < m {
      TotalStep(items, k, weight);
      assert items[..m][..k + 1] == items[..k + 1];
      TotalOfPrefix(items[..m], k + 1, weight);
      TakeIsLongest(items, k + 1, m, weight);
    }
  }

  lemma {:induction false} GreedyIsGrouping<T>(items: seq<T>, weight: T -> nat)
    ensures IsGrouping(Greedy(items, weight), items, weight)
  {
    if items != [] {
      var k := Take(items, 1, weight);
      TakeIsWithinTarget(items, 1, weight);
      GreedyIsGrouping(items[k..], weight);
      assert items == items[..k] + items[k..];
    }
  }

  /** Dropping leading items from a grouping leaves a grouping of the rest that is no longer. */
  lemma {:induction false} DropFront<T>(
      groups: seq<seq<T>>, items: seq<T>, n: nat, weight: T -> nat) returns (rest: seq<seq<T>>)
    requires IsGrouping(groups, items, weight) && n <= |items|
    ensures IsGrouping(rest, items[n..], weight) && |rest| <= |groups|
  {
    if n == 0 {
      rest := groups;
      assert items[0..] == items;
    } else {
      var g := groups[0];
      assert g in groups && items == g + Flatten(groups[1..]);
      if n < |g| {
        rest := [g[n..]] + groups[1..];
        TotalOfSuffix(g, n, weight);
        assert rest[1..] == groups[1..];
        assert items[n..] == g[n..] + Flatten(groups[1..]);
      } else {
        rest := DropFront(groups[1..], items[|g|..], n - |g|, weight);
        assert items[|g|..][n - |g|..] == items[n..];
      }
    }
  }

  /** The packer uses the fewest chunks that any way of cutting the paragraphs into admissible chunks can reach. */
  lemma {:induction false} GreedyIsMinimal<T>(items: seq<T>, groups: seq<seq<T>>, weight: T -> nat)
    requires IsGrouping(groups, items, weight)
    ensures |Greedy(items, weight)| <= |groups|
    decreases |items|
  {
    if items != [] {
      var k := Take(items, 1, weight);
      var m := |groups[0]|;
      assert groups[0] in groups && items[..m] == groups[0];
      TakeIsLongest(items, 1, m, weight);
      assert items[m..] == Flatten(groups[1..]);
      var rest := DropFront(groups[1..], items[m..], k - m, weight);
      assert items[m..][k - m..] == items[k..];
      GreedyIsMinimal(items[k..], rest, weight);
    }
  }

  /** The packer closes a chunk only when the next paragraph would have pushed it over 600 tokens. */
  ghost predicate ClosesOnlyWhenFull<T>(groups: seq<seq<T>>, weight: T -> nat) {
    forall i :: 0 < i < |groups| ==> groups[i] != [] && Total(groups[i - 1], weight) + weight(groups[i][0]) > 600
  }

  lemma {:induction false} TakeStopsWhenFull<T>(items: seq<T>, k: nat, weight: T -> nat)
    requires 1 <= k <= |items|
    ensures var n := Take(items, k, weight); n < |items| ==> Total(items[..n], weight) + weight(items[n]) > 600
    decreases |items| - k
  {
    hide Total;
    if k < |items| && Total(items[..k], weight) + weight(items[k]) <= CHUNK_TARGET_TOKENS {
      TakeStopsWhenFull(items, k + 1, weight);
    }
  }

  lemma {:induction false} GreedyClosesOnlyWhenFull<T>(items: seq<T>, weight: T -> nat)
    ensures ClosesOnlyWhenFull(Greedy(items, weight), weight)
  {
    hide Total, Take;
    if items != [] {
      var k := Take(items, 1, weight);
      GreedyClosesOnlyWhenFull(items[k..], weight);
      TakeStopsWhenFull(items, 1, weight);
      var rest := Greedy(items[k..], weight);
      if k < |items| {
        GreedyStartsWith(items[k..], weight);
        assert Total(items[..k], weight) + weight(rest[0][0]) > 600;
      }
      FullChunkBefore(items[..k], rest, weight);
    }
  }

  lemma {:induction false} FullChunkBefore<T>(g: seq<T>, rest: seq<seq<T>>, weight: T -> nat)
    requires ClosesOnlyWhenFull(rest, weight)
    requires rest != [] ==> rest[0] != [] && Total(g, weight) + weight(rest[0][0]) > 600
    ensures ClosesOnlyWhenFull([g] + rest, weight)
  {
    hide Total;
  }

  lemma {:induction false} GreedyStartsWith<T>(items: seq<T>, weight: T -> nat)
    requires items != []
    ensures Greedy(items, weight) != [] && Greedy(items, weight)[0] != [] && Greedy(items, weight)[0][0] == items[0]
  {
  }

  /** There is one way only to cut the paragraphs into admissible chunks and close each only when it is full. */
  lemma {:induction false} PackingIsUnique<T>(items: seq<T>, groups: seq<seq<T>>, weight: T -> nat)
    requires IsGrouping(groups, items, weight) && ClosesOnlyWhenFull(groups, weight)
    ensures groups == Greedy(items, weight)
    decreases |groups|
  {
    hide Total, Take;
    if groups != [] {
      var g, rest := groups[0], groups[1..];
      assert items == g + Flatten(rest);
      assert Admissible(g, weight) && items[..|g|] == g && items[|g|..] == Flatten(rest);
      assert forall h :: h in rest ==> h in groups;
      FirstChunkIsTaken(items, groups, weight);
      PackingIsUnique(Flatten(rest), rest, weight);
      assert groups == [g] + rest;
    }
  }

  lemma {:induction false} FirstChunkIsTaken<T>(items: seq<T>, groups: seq<seq<T>>, weight: T -> nat)
    requires groups != [] && IsGrouping(groups, items, weight) && ClosesOnlyWhenFull(groups, weight)
    ensures items != [] && |groups[0]| == Take(items, 1, weight)
  {
    hide Total, Take;
    var g := groups[0];
    assert Admissible(g, weight) && items == g + Flatten(groups[1..]) && items[..|g|] == g;
    TakeIsLongest(items, 1, |g|, weight);
    var n := Take(items, 1, weight);
    if |g| < n {
      assert items[|g|] == Flatten(groups[1..])[0];
      assert Flatten(groups[1..]) == groups[1] + Flatten(groups[1..][1..]);
      SingleIsAdmissible(items, weight);
      TakeIsWithinTarget(items, 1, weight);
      assert items[..n][..|g| + 1] == items[..|g| + 1];
      TotalOfPrefix(items[..n], |g| + 1, weight);
      TotalStep(items, |g|, weight);
    }
  }

  lemma {:induction false} SingleIsAdmissible<T>(items: seq<T>, weight: T -> nat)
    requires items != []
    ensures Admissible(items[..1], weight)
  {
  }

  /** One step of the packing loop: the bucket is closed exactly when the next item would push it over the target. */
  lemma {:induction false} GreedyStep<T>(bucket: seq<T>, rest: seq<T>, weight: T -> nat)
    requires bucket != [] && Take(bucket + rest, 1, weight) == Take(bucket + rest, |bucket|, weight)
    ensures rest == [] || Total(bucket, weight) + weight(rest[0]) > CHUNK_TARGET_TOKENS
            ==> Greedy(bucket + rest, weight) == [bucket] + Greedy(rest, weight)
    ensures rest != [] && Total(bucket, weight) + weight(rest[0]) <= CHUNK_TARGET_TOKENS
            ==> Take(bucket + rest, 1, weight) == Take(bucket + rest, |bucket| + 1, weight)
  {
    assert (bucket + rest)[..|bucket|] == bucket && (bucket + rest)[|bucket|..] == rest;
  }
}
