/**
  * Packing citations under a token budget (src/domain/ai/context-token-budget.ts), and the keep-first
  * de-duplication it shares with src/domain/ai/context-builder.ts.
  */
module ContextTokenBudget {
  import opened Seqs
  import opened CitationProvision

  // ----- keep the first element of every key -----

  ghost predicate IsFirstOfKey<T>(xs: seq<T>, key: T -> string, i: nat)
    requires i < |xs|
  {
    forall j :: 0 <= j < i ==> key(xs[j]) != key(xs[i])
  }

  function KeepFirst<T>(xs: seq<T>, key: T -> string): seq<T> {
    if xs == [] then []
    else
      var front, x := xs[..|xs| - 1], xs[|xs| - 1];
      if forall j :: 0 <= j < |front| ==> key(front[j]) != key(x) then KeepFirst(front, key) + [x] else KeepFirst(front, key)
  }

  /** `kept` lists, in order, exactly the elements that are the first of their key. */
  ghost predicate KeepsFirsts<T>(kept: seq<T>, xs: seq<T>, key: T -> string) {
    && IsSubsequence(kept, xs)
    && (forall i, j :: 0 <= i < j < |kept| ==> key(kept[i]) != key(kept[j]))
    && (forall i :: 0 <= i < |xs| ==> IsRepresented(kept, xs, key, i))
    && (forall k :: 0 <= k < |kept| ==> IsSomeFirst(kept, xs, key, k))
  }

  ghost predicate IsRepresented<T>(kept: seq<T>, xs: seq<T>, key: T -> string, i: nat)
    requires i < |xs|
  {
    (IsFirstOfKey(xs, key, i) ==> xs[i] in kept) && SomeHasKey(kept, key, key(xs[i]))
  }

  ghost predicate IsSomeFirst<T>(kept: seq<T>, xs: seq<T>, key: T -> string, k: nat)
    requires k < |kept|
  {
    exists i :: 0 <= i < |xs| && xs[i] == kept[k] && IsFirstOfKey(xs, key, i)
  }

  ghost predicate SomeHasKey<T>(kept: seq<T>, key: T -> string, k: string) {
    exists i :: 0 <= i < |kept| && key(kept[i]) == k
  }

  lemma {:induction false} SubsequenceOfFront<T>(kept: seq<T>, xs: seq<T>)
    requires xs != [] && IsSubsequence(kept, xs[..|xs| - 1])
    ensures IsSubsequence(kept, xs) && IsSubsequence(kept + [xs[|xs| - 1]], xs)
  {
    var last := [xs[|xs| - 1]];
    SubsequenceConcat(kept, xs[..|xs| - 1], [], last);
    SubsequenceOfItself(last);
    SubsequenceConcat(kept, xs[..|xs| - 1], last, last);
    assert xs == xs[..|xs| - 1] + last && kept + [] == kept;
  }

  ghost predicate IsNewKey<T>(front: seq<T>, key: T -> string, x: T) {
    forall j :: 0 <= j < |front| ==> key(front[j]) != key(x)
  }

  lemma {:induction false} KeptAreFirsts<T>(xs: seq<T>, key: T -> string)
    ensures KeepsFirsts(KeepFirst(xs, key), xs, key)
  {
    hide IsSubsequence, IsSomeFirst, IsRepresented;
    if xs == [] {
      NothingToKeep(key);
    } else {
      var front, x := xs[..|xs| - 1], xs[|xs| - 1];
      var before := KeepFirst(front, key);
      assert xs == front + [x];
      KeptAreFirsts(front, key);
      SubsequenceOfFront(before, xs);
      if IsNewKey(front, key, x) {
        assert KeepFirst(xs, key) == before + [x];
        NewKeyIsKept(before, front, key, x);
      } else {
        assert KeepFirst(xs, key) == before;
        KnownKeyIsDropped(before, front, key, x);
      }
    }
  }

  lemma {:induction false} NothingToKeep<T>(key: T -> string)
    ensures IsSubsequence<T>([], [])
  {
  }

  lemma {:induction false} NewKeyIsKept<T>(before: seq<T>, front: seq<T>, key: T -> string, x: T)
    requires KeepsFirsts(before, front, key) && IsNewKey(front, key, x)
    requires IsSubsequence(before + [x], front + [x])
    ensures KeepsFirsts(before + [x], front + [x], key)
  {
    hide IsSubsequence;
    var kept, xs := before + [x], front + [x];
    forall k | 0 <= k < |kept|
      ensures IsSomeFirst(kept, xs, key, k) && (k < |before| ==> key(kept[k]) != key(x))
    {
      if k < |before| {
        assert IsSomeFirst(before, front, key, k);
        var i :| 0 <= i < |front| && front[i] == before[k] && IsFirstOfKey(front, key, i);
        assert xs[i] == kept[k] && IsFirstOfKey(xs, key, i);
      } else {
        assert xs[|front|] == kept[k] && IsFirstOfKey(xs, key, |front|);
      }
    }
    forall i | 0 <= i < |xs|
      ensures IsRepresented(kept, xs, key, i)
    {
      if i < |front| {
        StillRepresented(before, front, key, x, i);
      } else {
        assert kept[|before|] == x;
      }
    }
  }

  lemma {:induction false} StillRepresented<T>(before: seq<T>, front: seq<T>, key: T -> string, x: T, i: nat)
    requires i < |front| && IsRepresented(before, front, key, i)
    ensures IsRepresented(before, front + [x], key, i) && IsRepresented(before + [x], front + [x], key, i)
  {
    var xs := front + [x];
    assert xs[i] == front[i] && forall j :: 0 <= j < i ==> xs[j] == front[j];
    assert IsFirstOfKey(xs, key, i) ==> IsFirstOfKey(front, key, i);
    var k :| 0 <= k < |before| && key(before[k]) == key(front[i]);
    assert (before + [x])[k] == before[k];
  }

  lemma {:induction false} KnownKeyIsDropped<T>(before: seq<T>, front: seq<T>, key: T -> string, x: T)
    requires KeepsFirsts(before, front, key) && !IsNewKey(front, key, x)
    requires IsSubsequence(before, front + [x])
    ensures KeepsFirsts(before, front + [x], key)
  {
    hide IsSubsequence;
    var xs := front + [x];
    forall k | 0 <= k < |before|
      ensures IsSomeFirst(before, xs, key, k)
    {
      assert IsSomeFirst(before, front, key, k);
      var i :| 0 <= i < |front| && front[i] == before[k] && IsFirstOfKey(front, key, i);
      assert xs[i] == before[k] && IsFirstOfKey(xs, key, i);
    }
    forall i | 0 <= i < |xs|
      ensures IsRepresented(before, xs, key, i)
    {
      if i < |front| {
        StillRepresented(before, front, key, x, i);
      } else {
        var j :| 0 <= j < |front| && key(front[j]) == key(x);
        assert key(xs[j]) == key(xs[i]);
        assert IsRepresented(before, front, key, j);
      }
    }
  }

  /** `deduplicateByNormalizedText` and `deduplicateCitationsByEvidenceText`: one loop with a set of seen keys. */
  method DeduplicateByKey<T>(xs: seq<T>, key: T -> string) returns (deduped: seq<T>)
    ensures deduped == KeepFirst(xs, key)
  {
    var seen: set<string> := {};
    deduped := [];
    for i := 0 to |xs|
      invariant seen == set j | 0 <= j < i :: key(xs[j])
      invariant deduped == KeepFirst(xs[..i], key)
    {
      var k := key(xs[i]);
      var front := xs[..i];
      assert xs[..i + 1][..i] == front;
      assert k !in seen <==> forall j :: 0 <= j < |front| ==> key(front[j]) != k;
      if k !in seen {
        seen := seen + {k};
        deduped := deduped + [xs[i]];
      }
    }
    assert xs[..|xs|] == xs;
  }

  /** On input sorted by descending score, the element kept for a key is a highest-scored one of that key. */
  lemma {:induction false} KeptIsHighestScored<T>(xs: seq<T>, key: T -> string, score: T -> real, x: T)
    requires forall i, j :: 0 <= i < j < |xs| ==> score(xs[i]) >= score(xs[j])
    requires x in xs
    ensures exists y :: y in KeepFirst(xs, key) && key(y) == key(x) && score(y) >= score(x)
  {
    hide IsSubsequence, KeepFirst;
    KeptAreFirsts(xs, key);
    var n :| 0 <= n < |xs| && xs[n] == x;
    var kept := KeepFirst(xs, key);
    assert IsRepresented(kept, xs, key, n);
    var k :| 0 <= k < |kept| && key(kept[k]) == key(x);
    assert IsSomeFirst(kept, xs, key, k);
    var i :| 0 <= i < |xs| && xs[i] == kept[k] && IsFirstOfKey(xs, key, i);
    assert i <= n;
    assert kept[k] in kept;
  }

  // ----- greedy packing under the prompt's token count -----

  const MAX_CITATIONS_FOCUSED := 5

  datatype QuestionComplexity = Focused | Comprehensive

  datatype ContextTokenBudgetResult = ContextTokenBudgetResult(
    kept: seq<Citation>, truncated: bool, droppedCount: int, totalContextTokens: nat)

  function EvidenceKey(normalize: string -> string): Citation -> string {
    (c: Citation) => normalize(c.evidenceText)
  }

  /** The candidates left after de-duplication and the count cap. */
  function CountCapped(deduped: seq<Citation>, complexity: QuestionComplexity): seq<Citation> {
    if complexity == Focused && |deduped| > MAX_CITATIONS_FOCUSED then deduped[..MAX_CITATIONS_FOCUSED] else deduped
  }

  /** The selection of the packing loop. `cost` is the token count of the whole prompt built from a list of citations. */
  function Packed(candidates: seq<Citation>, cost: seq<Citation> -> nat, budget: int): seq<Citation> {
    if candidates == [] then []
    else
      var kept := Packed(candidates[..|candidates| - 1], cost, budget);
      var c := candidates[|candidates| - 1];
      if cost(kept + [c]) > budget then kept else kept + [c]
  }

  /** What `packCitationsWithinTokenBudget` keeps. */
  function PackedFor(
    citations: seq<Citation>, normalize: string -> string, cost: seq<Citation> -> nat, budget: int,
    complexity: QuestionComplexity): seq<Citation>
  {
    Packed(CountCapped(KeepFirst(citations, EvidenceKey(normalize)), complexity), cost, budget)
  }

  /** The candidates a selection takes. */
  function Pick(candidates: seq<Citation>, selection: seq<bool>): seq<Citation>
    requires |candidates| == |selection|
  {
    if candidates == [] then []
    else
      var n := |candidates| - 1;
      Pick(candidates[..n], selection[..n]) + if selection[n] then [candidates[n]] else []
  }

  /** The packing loop as a selection. */
  function PackedSelection(candidates: seq<Citation>, cost: seq<Citation> -> nat, budget: int): (g: seq<bool>)
    ensures |g| == |candidates|
  {
    if candidates == [] then []
    else
      var front, c := candidates[..|candidates| - 1], candidates[|candidates| - 1];
      PackedSelection(front, cost, budget) + [cost(Packed(front, cost, budget) + [c]) <= budget]
  }

  lemma {:induction false} PackedIsPicked(candidates: seq<Citation>, cost: seq<Citation> -> nat, budget: int)
    ensures Pick(candidates, PackedSelection(candidates, cost, budget)) == Packed(candidates, cost, budget)
  {
    if candidates != [] {
      var n := |candidates| - 1;
      PackedIsPicked(candidates[..n], cost, budget);
      assert PackedSelection(candidates, cost, budget)[..n] == PackedSelection(candidates[..n], cost, budget);
    }
  }

  lemma {:induction false} SelectionOfPrefix(candidates: seq<Citation>, cost: seq<Citation> -> nat, budget: int, i: nat)
    requires i <= |candidates|
    ensures PackedSelection(candidates, cost, budget)[..i] == PackedSelection(candidates[..i], cost, budget)
  {
    if i < |candidates| {
      var front := candidates[..|candidates| - 1];
      SelectionOfPrefix(front, cost, budget, i);
      assert front[..i] == candidates[..i];
      assert PackedSelection(candidates, cost, budget)[..i] == PackedSelection(front, cost, budget)[..i];
    } else {
      assert candidates[..i] == candidates;
    }
  }

  lemma {:induction false} PickOfPrefix(candidates: seq<Citation>, selection: seq<bool>, i: nat)
    requires |candidates| == |selection| && i <= |candidates|
    ensures IsSubsequence(Pick(candidates[..i], selection[..i]), Pick(candidates, selection))
  {
    if i < |candidates| {
      var n := |candidates| - 1;
      PickOfPrefix(candidates[..n], selection[..n], i);
      assert candidates[..n][..i] == candidates[..i] && selection[..n][..i] == selection[..i];
      SubsequenceConcat(Pick(candidates[..i], selection[..i]), Pick(candidates[..n], selection[..n]), [],
                        if selection[n] then [candidates[n]] else []);
      var picked := Pick(candidates[..i], selection[..i]);
      assert picked + [] == picked;
    } else {
      assert candidates[..i] == candidates && selection[..i] == selection;
      SubsequenceOfItself(Pick(candidates, selection));
    }
  }

  /** A prompt with more evidence has at least as many tokens. */
  ghost predicate IsMonotone(cost: seq<Citation> -> nat) {
    forall xs, ys :: IsSubsequence(xs, ys) ==> cost(xs) <= cost(ys)
  }

  /**
    * Score order is never traded away: where a selection within the budget first differs from the packer's, the packer
    * is the one that takes the candidate. In particular no single rejected candidate could still be put in.
    */
  lemma {:induction false} PackedIsGreediest(
      candidates: seq<Citation>, cost: seq<Citation> -> nat, budget: int, other: seq<bool>, i: nat)
    requires IsMonotone(cost) && |other| == |candidates| && cost(Pick(candidates, other)) <= budget
    requires i < |candidates| && other[..i] == PackedSelection(candidates, cost, budget)[..i] && other[i]
    ensures PackedSelection(candidates, cost, budget)[i]
  {
    var front := candidates[..i];
    SelectionOfPrefix(candidates, cost, budget, i);
    SelectionOfPrefix(candidates, cost, budget, i + 1);
    PackedIsPicked(front, cost, budget);
    assert candidates[..i + 1][..i] == front && other[..i + 1][..i] == other[..i];
    assert Pick(candidates[..i + 1], other[..i + 1]) == Packed(front, cost, budget) + [candidates[i]];
    PickOfPrefix(candidates, other, i + 1);
    assert PackedSelection(candidates, cost, budget)[..i + 1][i] == PackedSelection(candidates[..i + 1], cost, budget)[i];
  }

  /** Nor could a rejected candidate be appended to the final set. */
  lemma {:induction false} RejectedNeverFits(candidates: seq<Citation>, cost: seq<Citation> -> nat, budget: int, i: nat)
    requires IsMonotone(cost) && i < |candidates| && !PackedSelection(candidates, cost, budget)[i]
    ensures cost(Packed(candidates, cost, budget) + [candidates[i]]) > budget
  {
    var front := candidates[..i];
    SelectionOfPrefix(candidates, cost, budget, i + 1);
    assert candidates[..i + 1][..i] == front;
    assert PackedSelection(candidates, cost, budget)[..i + 1][i] == PackedSelection(candidates[..i + 1], cost, budget)[i];
    PackedGrows(candidates, cost, budget, i);
    SubsequenceOfItself([candidates[i]]);
    SubsequenceConcat(Packed(front, cost, budget), Packed(candidates, cost, budget), [candidates[i]], [candidates[i]]);
  }

  lemma {:induction false} PackedGrows(candidates: seq<Citation>, cost: seq<Citation> -> nat, budget: int, i: nat)
    requires i <= |candidates|
    ensures IsSubsequence(Packed(candidates[..i], cost, budget), Packed(candidates, cost, budget))
  {
    var selection := PackedSelection(candidates, cost, budget);
    SelectionOfPrefix(candidates, cost, budget, i);
    PackedIsPicked(candidates[..i], cost, budget);
    PackedIsPicked(candidates, cost, budget);
    PickOfPrefix(candidates, selection, i);
  }

  lemma {:induction false} PackedIsSubsequence(candidates: seq<Citation>, cost: seq<Citation> -> nat, budget: int)
    ensures IsSubsequence(Packed(candidates, cost, budget), candidates)
    ensures Packed(candidates, cost, budget) != [] ==> cost(Packed(candidates, cost, budget)) <= budget
  {
    if candidates != [] {
      PackedIsSubsequence(candidates[..|candidates| - 1], cost, budget);
      SubsequenceOfFront(Packed(candidates[..|candidates| - 1], cost, budget), candidates);
    }
  }

  /**
    * `packCitationsWithinTokenBudget`. Without evidence the prompt may exceed the budget by itself; with evidence it
    * never does.
    */
  method PackCitationsWithinTokenBudget(
    citations: seq<Citation>, normalize: string -> string, cost: seq<Citation> -> nat, budget: int,
      complexity: QuestionComplexity)
    returns (r: ContextTokenBudgetResult)
    ensures var deduped := KeepFirst(citations, EvidenceKey(normalize));
            && r.kept == PackedFor(citations, normalize, cost, budget, complexity)
            && r.droppedCount == |deduped| - |r.kept| >= 0 && (r.truncated <==> r.droppedCount > 0)
            && IsSubsequence(r.kept, deduped)
    ensures r.totalContextTokens == cost(r.kept) && (r.kept != [] ==> r.totalContextTokens <= budget)
    ensures complexity == Focused ==> |r.kept| <= 5
    ensures IsMonotone(cost) ==>
              var deduped := KeepFirst(citations, EvidenceKey(normalize));
              forall i :: 0 <= i < |deduped| && (complexity == Comprehensive || i < 5) ==>
                IsKeptOrTooLarge(deduped[i], r.kept, cost, budget)
  {
    hide KeepFirst, IsMonotone, IsKeptOrTooLarge;
    if IsMonotone(cost) {
      PackingByComplexity(citations, normalize, cost, budget);
    }
    var deduped := DeduplicateByKey(citations, EvidenceKey(normalize));
    var countCapped := CountCapped(deduped, complexity);
    var kept: seq<Citation> := [];
    var currentTokens := cost(kept);
    for i := 0 to |countCapped|
      invariant kept == Packed(countCapped[..i], cost, budget) && currentTokens == cost(kept)
    {
      assert countCapped[..i + 1][..i] == countCapped[..i];
      var candidateTokens := cost(kept + [countCapped[i]]);
      if candidateTokens <= budget {
        kept := kept + [countCapped[i]];
        currentTokens := candidateTokens;
      }
    }
    assert countCapped[..|countCapped|] == countCapped;
    PackedIsSubsequence(countCapped, cost, budget);
    CappedIsSubsequence(deduped, kept, complexity);
    SubsequenceLength(kept, countCapped);
    SubsequenceLength(kept, deduped);
    return ContextTokenBudgetResult(kept, |kept| < |deduped|, |deduped| - |kept|, currentTokens);
  }

  lemma {:induction false} DistinctInSubsequence<T>(xs: seq<T>, ys: seq<T>, key: T -> string)
    requires IsSubsequence(xs, ys) && forall i, j :: 0 <= i < j < |ys| ==> key(ys[i]) != key(ys[j])
    ensures forall i, j :: 0 <= i < j < |xs| ==> key(xs[i]) != key(xs[j])
    decreases |ys|
  {
    if xs != [] && ys != [] {
      if IsSubsequence(xs, ys[1..]) {
        DistinctInSubsequence(xs, ys[1..], key);
      } else {
        DistinctInSubsequence(xs[1..], ys[1..], key);
        SubsequenceElements(xs[1..], ys[1..]);
        assert forall j :: 0 < j < |xs| ==> xs[j] == xs[1..][j - 1] && xs[1..][j - 1] in ys[1..];
      }
    }
  }

  /** `selection` takes a candidate exactly when the prompt with it and those taken before stays within the budget. */
  ghost predicate IsGreedySelection(
    candidates: seq<Citation>, selection: seq<bool>, cost: seq<Citation> -> nat, budget: int)
  {
    && |selection| == |candidates|
    && forall i :: 0 <= i < |candidates| ==>
         selection[i] == (cost(Pick(candidates[..i], selection[..i]) + [candidates[i]]) <= budget)
  }

  /** Whatever the cost: what is packed is what such a selection picks. */
  lemma {:induction false} PackedIsGreedySelection(candidates: seq<Citation>, cost: seq<Citation> -> nat, budget: int)
    ensures var selection := PackedSelection(candidates, cost, budget);
            && IsGreedySelection(candidates, selection, cost, budget)
            && Packed(candidates, cost, budget) == Pick(candidates, selection)
  {
    hide Pick, Packed;
    PackedIsPicked(candidates, cost, budget);
    var selection := PackedSelection(candidates, cost, budget);
    forall i | 0 <= i < |candidates|
      ensures selection[i] == (cost(Pick(candidates[..i], selection[..i]) + [candidates[i]]) <= budget)
    {
      SelectionOfPrefix(candidates, cost, budget, i);
      SelectionOfPrefix(candidates, cost, budget, i + 1);
      assert selection[i] == selection[..i + 1][i];
      assert candidates[..i + 1][..i] == candidates[..i];
      PackedIsPicked(candidates[..i], cost, budget);
    }
  }

  /** The citation is in the prompt, or the prompt has no room for it. */
  ghost predicate IsKeptOrTooLarge(c: Citation, kept: seq<Citation>, cost: seq<Citation> -> nat, budget: int) {
    c in kept || cost(kept + [c]) > budget
  }

  lemma {:induction false} CandidateIsKeptOrTooLarge(
      candidates: seq<Citation>, cost: seq<Citation> -> nat, budget: int, i: nat)
    requires IsMonotone(cost) && i < |candidates|
    ensures IsKeptOrTooLarge(candidates[i], Packed(candidates, cost, budget), cost, budget)
  {
    hide IsMonotone, Packed;
    var selection := PackedSelection(candidates, cost, budget);
    PackedIsPicked(candidates, cost, budget);
    if selection[i] {
      PickedIsTaken(candidates, selection, i);
    } else {
      RejectedNeverFits(candidates, cost, budget, i);
    }
  }

  lemma {:induction false} PickedIsTaken(candidates: seq<Citation>, selection: seq<bool>, i: nat)
    requires |candidates| == |selection| && i < |candidates| && selection[i]
    ensures candidates[i] in Pick(candidates, selection)
  {
    var n := |candidates| - 1;
    if i < n {
      PickedIsTaken(candidates[..n], selection[..n], i);
    }
  }

  /**
    * What is packed, question by question. A comprehensive question gets every citation with evidence of its own that
    * still fits; a focused one gets those of the first five that do, and nothing beyond them.
    */
  lemma {:induction false} PackingByComplexity(
      citations: seq<Citation>, normalize: string -> string, cost: seq<Citation> -> nat, budget: int)
    requires IsMonotone(cost)
    ensures var deduped := KeepFirst(citations, EvidenceKey(normalize));
            var wide := PackedFor(citations, normalize, cost, budget, Comprehensive);
            var narrow := PackedFor(citations, normalize, cost, budget, Focused);
            var five := if |deduped| <= 5 then deduped else deduped[..5];
            && IsSubsequence(wide, deduped)
            && (forall i :: 0 <= i < |deduped| ==> IsKeptOrTooLarge(deduped[i], wide, cost, budget))
            && IsSubsequence(narrow, five)
            && (forall i :: 0 <= i < |five| ==> IsKeptOrTooLarge(five[i], narrow, cost, budget))
  {
    hide KeepFirst, Packed, IsMonotone, IsKeptOrTooLarge;
    var deduped := KeepFirst(citations, EvidenceKey(normalize));
    var five := CountCapped(deduped, Focused);
    PackedIsSubsequence(deduped, cost, budget);
    PackedIsSubsequence(five, cost, budget);
    forall i | 0 <= i < |deduped|
      ensures IsKeptOrTooLarge(deduped[i], Packed(deduped, cost, budget), cost, budget)
    {
      CandidateIsKeptOrTooLarge(deduped, cost, budget, i);
    }
    forall i | 0 <= i < |five|
      ensures IsKeptOrTooLarge(five[i], Packed(five, cost, budget), cost, budget)
    {
      CandidateIsKeptOrTooLarge(five, cost, budget, i);
    }
  }

  /** The packed citations keep the order of the input, and no two of them have the same normalized evidence. */
  lemma {:induction false} PackedEvidenceIsDistinct(
      citations: seq<Citation>, normalize: string -> string, cost: seq<Citation> -> nat, budget: int,
      complexity: QuestionComplexity)
    ensures var kept := PackedFor(citations, normalize, cost, budget, complexity);
            IsSubsequence(kept, KeepFirst(citations, EvidenceKey(normalize)))
            && forall i, j :: 0 <= i < j < |kept| ==> normalize(kept[i].evidenceText) != normalize(kept[j].evidenceText)
  {
    hide KeepFirst, Packed;
    var deduped := KeepFirst(citations, EvidenceKey(normalize));
    var candidates := CountCapped(deduped, complexity);
    KeptAreFirsts(citations, EvidenceKey(normalize));
    PackedIsSubsequence(candidates, cost, budget);
    CappedIsSubsequence(deduped, Packed(candidates, cost, budget), complexity);
    DistinctInSubsequence(Packed(candidates, cost, budget), deduped, EvidenceKey(normalize));
  }

  lemma {:induction false} CappedIsSubsequence(
      deduped: seq<Citation>, kept: seq<Citation>, complexity: QuestionComplexity)
    requires IsSubsequence(kept, CountCapped(deduped, complexity))
    ensures IsSubsequence(kept, deduped)
  {
    var n := |CountCapped(deduped, complexity)|;
    assert CountCapped(deduped, complexity) == deduped[..n];
    SubsequenceConcat(kept, deduped[..n], [], deduped[n..]);
    assert kept + [] == kept && deduped[..n] + deduped[n..] == deduped;
  }
}
