/** The citations a grounded answer uses (src/domain/ai/answer-used-citations.ts), end to end with the validator. */
module AnswerUsedCitations {
  import opened JsText
  import opened Seqs
  import opened CitationMarker
  import opened CitationProvision
  import opened CitationRequired

  /** `[...new Set(indexes)]` of those indexes that name a supplied citation. */
  function UsedIndexes(markers: seq<nat>, supplied: nat): (r: seq<nat>)
    ensures forall n :: n in r <==> n in markers && IsSupplied(n, supplied)
    ensures forall i :: 0 <= i < |r| ==> IsSupplied(r[i], supplied)
  {
    if markers == [] then []
    else
      var front := UsedIndexes(markers[..|markers| - 1], supplied);
      var n := markers[|markers| - 1];
      assert markers == markers[..|markers| - 1] + [n];
      if IsSupplied(n, supplied) && n !in front then front + [n] else front
  }

  function CitationsAt(indexes: seq<nat>, citations: seq<Citation>): (r: seq<Citation>)
    requires forall i :: 0 <= i < |indexes| ==> IsSupplied(indexes[i], |citations|)
    ensures |r| == |indexes|
  {
    seq(|indexes|, i requires 0 <= i < |indexes| && IsSupplied(indexes[i], |citations|) => citations[indexes[i] - 1])
  }

  function FilterCitationsToAnswerUsed(answerText: string, citations: seq<Citation>): seq<Citation> {
    Deduplicate(CitationsAt(UsedIndexes(FindMarkers(answerText), |citations|), citations))
  }

  /** Some citation of `used` stands for the provision of citation number `n`, and is no worse than it. */
  ghost predicate Represents(used: seq<Citation>, citations: seq<Citation>, n: nat)
    requires IsSupplied(n, |citations|)
  {
    exists c :: c in used && StandsFor(c, citations[n - 1])
  }

  ghost predicate StandsFor(c: Citation, cited: Citation) {
    && ProvisionKey(c) == ProvisionKey(cited)
    && (cited.evidenceType == Clause ==> c.evidenceType == Clause)
    && (cited.evidenceType == c.evidenceType ==> cited.score <= c.score)
  }

  /** The indexes in the order in which the answer first cites them. */
  lemma {:induction false} UsedIndexesAreFirsts(markers: seq<nat>, supplied: nat)
    ensures UsedIndexes(markers, supplied) == Firsts(ValidMarkers(markers, supplied))
  {
    if markers != [] {
      var front, n := markers[..|markers| - 1], markers[|markers| - 1];
      UsedIndexesAreFirsts(front, supplied);
      assert markers == front + [n];
      ValidMarkersOfLast(front, n, supplied);
      FirstsInOrder(ValidMarkers(front, supplied));
      var before, valid := ValidMarkers(front, supplied), ValidMarkers(markers, supplied);
      if IsSupplied(n, supplied) {
        assert valid == before + [n] && valid[..|valid| - 1] == before;
        assert Firsts(valid) == if n in before then Firsts(before) else Firsts(before) + [n];
      } else {
        assert valid == before;
      }
    }
  }

  lemma {:induction false} ValidMarkersOfLast(markers: seq<nat>, n: nat, supplied: nat)
    ensures ValidMarkers(markers + [n], supplied)
            == ValidMarkers(markers, supplied) + if IsSupplied(n, supplied) then [n] else []
  {
    if markers == [] {
      assert [] + [n] == [n] && [n][1..] == [];
    } else {
      ValidMarkersOfLast(markers[1..], n, supplied);
      assert (markers + [n])[1..] == markers[1..] + [n];
    }
  }

  ghost predicate IsCited(c: Citation, citations: seq<Citation>, markers: seq<nat>) {
    exists n :: n in markers && IsSupplied(n, |citations|) && c == citations[n - 1]
  }

  /** The citations shown for any text: supplied and cited ones only, one per provision, and one for every valid marker. */
  lemma {:induction false} UsedCitations(answerText: string, citations: seq<Citation>)
    ensures var used := FilterCitationsToAnswerUsed(answerText, citations);
            && (forall c :: c in used ==> IsCited(c, citations, FindMarkers(answerText)))
            && DistinctKeys(used) && IsSortedByScore(used)
            && (forall n :: n in FindMarkers(answerText) && IsSupplied(n, |citations|) ==> Represents(used, citations, n))
  {
    hide FindMarkers, Deduplicate, IsCited, DistinctKeys, IsSortedByScore, Represents;
    var indexes := UsedIndexes(FindMarkers(answerText), |citations|);
    var cited := CitationsAt(indexes, citations);
    DeduplicateKeepsBest(cited);
    forall c | c in Deduplicate(cited)
      ensures IsCited(c, citations, FindMarkers(answerText))
    {
      CitedOnes(FindMarkers(answerText), citations, c);
    }
    forall n | n in FindMarkers(answerText) && IsSupplied(n, |citations|)
      ensures Represents(Deduplicate(cited), citations, n)
    {
      MarkerIsRepresented(FindMarkers(answerText), citations, n);
    }
  }

  lemma {:induction false} CitedOnes(markers: seq<nat>, citations: seq<Citation>, c: Citation)
    requires c in Deduplicate(CitationsAt(UsedIndexes(markers, |citations|), citations))
    ensures IsCited(c, citations, markers)
  {
    hide Deduplicate, HasNoBetter, DistinctKeys;
    var indexes := UsedIndexes(markers, |citations|);
    var cited := CitationsAt(indexes, citations);
    DeduplicateKeepsBest(cited);
    var i :| 0 <= i < |cited| && cited[i] == c;
    assert indexes[i] in indexes;
  }

  lemma {:induction false} MarkerIsRepresented(markers: seq<nat>, citations: seq<Citation>, n: nat)
    requires n in markers && IsSupplied(n, |citations|)
    ensures Represents(Deduplicate(CitationsAt(UsedIndexes(markers, |citations|), citations)), citations, n)
  {
    hide ProvisionKey, Deduplicate;
    var indexes := UsedIndexes(markers, |citations|);
    var cited := CitationsAt(indexes, citations);
    var i :| 0 <= i < |indexes| && indexes[i] == n;
    assert cited[i] in cited;
    var b := KeptIsClauseFirstThenScore(cited, cited[i]);
    assert StandsFor(b, citations[n - 1]);
  }

  // ----- end to end -----

  lemma {:induction false} MarkerOfBlock(blocks: seq<string>, i: nat, n: nat)
    requires i < |blocks| && n in FindMarkers(blocks[i])
    ensures n in MarkersOfBlocks(blocks)
  {
    hide FindMarkers;
    if i > 0 {
      MarkerOfBlock(blocks[1..], i - 1, n);
    }
  }

  lemma {:induction false} BlockOfMarker(blocks: seq<string>, n: nat) returns (i: nat)
    requires n in MarkersOfBlocks(blocks)
    ensures i < |blocks| && n in FindMarkers(blocks[i])
  {
    hide FindMarkers;
    if n in FindMarkers(blocks[0]) {
      i := 0;
    } else {
      i := BlockOfMarker(blocks[1..], n);
      i := i + 1;
    }
  }

  /**
    * From validated answer to shown citations: every marker of every block names a supplied citation whose provision is
    * shown, only supplied citations are shown, and an answer with an evidence block shows at least one.
    */
  lemma {:induction false} GroundedAnswerShowsItsCitations(answerText: string, citations: seq<Citation>, i: nat)
    requires IsAccepted(answerText, |citations|) && i < |Blocks(answerText)|
    ensures var block := Blocks(answerText)[i];
            var used := FilterCitationsToAnswerUsed(GroundedText(answerText), citations);
            && (forall n :: n in FindMarkers(block.text) ==> IsSupplied(n, |citations|) && Represents(used, citations, n))
            && (forall c :: c in used ==> c in citations)
            && (block.kind == Evidence ==> used != [])
  {
    hide FindMarkers, ParseAnswerBlock, FilterCitationsToAnswerUsed, ProvisionKey, Join;
    var block := Blocks(answerText)[i];
    var texts := Texts(Blocks(answerText));
    var used := FilterCitationsToAnswerUsed(GroundedText(answerText), citations);
    UsedCitations(GroundedText(answerText), citations);
    JoinKeepsMarkers(texts);
    forall n | n in FindMarkers(block.text)
      ensures IsSupplied(n, |citations|) && Represents(used, citations, n)
    {
      assert IsGrounded(block, |citations|);
      MarkerOfBlock(texts, i, n);
    }
    if block.kind == Evidence {
      assert IsGrounded(block, |citations|);
      assert FindMarkers(block.text)[0] in FindMarkers(block.text);
    }
  }

  /** Without a block that ends inside an opened marker, every marker of the returned text is valid. */
  lemma {:induction false} ClosedAnswerHasOnlySuppliedMarkers(answerText: string, supplied: nat, n: nat)
    requires IsAccepted(answerText, supplied) && n in FindMarkers(GroundedText(answerText))
    requires forall i :: 0 <= i < |Blocks(answerText)| ==> !HasOpenTail(Blocks(answerText)[i].text)
    ensures IsSupplied(n, supplied)
  {
    hide FindMarkers, ParseAnswerBlock, HasOpenTail, Join;
    var texts := Texts(Blocks(answerText));
    forall b | b in texts
      ensures !HasOpenTail(b)
    {
      var i :| 0 <= i < |texts| && texts[i] == b;
      assert !HasOpenTail(Blocks(answerText)[i].text);
    }
    JoinOfClosedBlocks(texts);
    var i := BlockOfMarker(texts, n);
    assert IsGrounded(Blocks(answerText)[i], supplied);
  }

  ghost predicate AllSupplied(markers: seq<nat>, supplied: nat) {
    forall n :: n in markers ==> IsSupplied(n, supplied)
  }

  /** What follows paragraph `k` once all are joined. */
  function Following(texts: seq<string>, k: nat): string
    requires k < |texts|
  {
    Join(texts[k + 1..], PARAGRAPH_BREAK)
  }

  /** If the paragraphs after `k` close a marker that `k` leaves open, they add only supplied indexes to it. */
  ghost predicate JoinsSafely(texts: seq<string>, k: nat, supplied: nat)
    requires k < |texts|
  {
    forall p :: ClosesIn(texts[k], Following(texts, k), p) ==>
                  AllSupplied(IndexesAt(texts[k] + (PARAGRAPH_BREAK + Following(texts, k)), p), supplied)
  }

  lemma {:induction false} AllSuppliedInConcat(xs: seq<nat>, ys: seq<nat>, supplied: nat)
    ensures AllSupplied(xs + ys, supplied) <==> AllSupplied(xs, supplied) && AllSupplied(ys, supplied)
  {
    if AllSupplied(xs + ys, supplied) {
      assert forall n :: n in xs ==> n in xs + ys;
      assert forall n :: n in ys ==> n in xs + ys;
    }
  }

  lemma {:induction false} StraddlingIsSupplied(x: string, rest: string, supplied: nat)
    ensures AllSupplied(Straddling(x, PARAGRAPH_BREAK + rest), supplied)
            <==> forall p :: ClosesIn(x, rest, p) ==> AllSupplied(IndexesAt(x + (PARAGRAPH_BREAK + rest), p), supplied)
  {
    hide IndexesAt, IsNewMatch, ClosesIn, AllSupplied;
    var y := PARAGRAPH_BREAK + rest;
    forall p
      ensures ClosesIn(x, rest, p) ==> IsNewMatch(x, y, p) && Straddling(x, y) == IndexesAt(x + y, p)
    {
      NewMatchExactly(x, rest, p);
      if ClosesIn(x, rest, p) {
        StraddlingIs(x, y, p);
      }
    }
    if p: nat :| IsNewMatch(x, y, p) {
      NewMatchExactly(x, rest, p);
    } else {
      NothingIsSupplied(supplied);
    }
  }

  lemma {:induction false} NothingIsSupplied(supplied: nat)
    ensures AllSupplied([], supplied)
  {
  }

  lemma {:induction false} JoinedMarkersAreSupplied(texts: seq<string>, supplied: nat)
    requires forall i :: 0 <= i < |texts| ==> AllSupplied(FindMarkers(texts[i]), supplied)
    ensures AllSupplied(FindMarkers(Join(texts, PARAGRAPH_BREAK)), supplied)
            <==> forall k :: 0 <= k < |texts| - 1 ==> JoinsSafely(texts, k, supplied)
  {
    hide FindMarkers, AllSupplied, Straddling, JoinsSafely;
    if |texts| == 0 {
      EmptyHasNoMarkers();
      NothingIsSupplied(supplied);
    } else if |texts| > 1 {
      var x, others := texts[0], texts[1..];
      var rest := Join(others, PARAGRAPH_BREAK);
      assert forall i :: 0 <= i < |others| ==> others[i] == texts[i + 1];
      JoinedMarkersAreSupplied(others, supplied);
      assert Join(texts, PARAGRAPH_BREAK) == x + (PARAGRAPH_BREAK + rest);
      MarkersOfConcat(x, PARAGRAPH_BREAK + rest);
      BreakHasNoMarker(rest);
      AllSuppliedInConcat(FindMarkers(x) + Straddling(x, PARAGRAPH_BREAK + rest), FindMarkers(rest), supplied);
      AllSuppliedInConcat(FindMarkers(x), Straddling(x, PARAGRAPH_BREAK + rest), supplied);
      FirstJoinsSafely(texts, supplied);
      FirstAndLaterJoinSafely(texts, supplied);
    }
  }

  lemma {:induction false} FirstAndLaterJoinSafely(texts: seq<string>, supplied: nat)
    requires |texts| > 1
    ensures (forall k :: 0 <= k < |texts| - 1 ==> JoinsSafely(texts, k, supplied))
            <==> JoinsSafely(texts, 0, supplied)
                 && forall k :: 0 <= k < |texts[1..]| - 1 ==> JoinsSafely(texts[1..], k, supplied)
  {
    hide JoinsSafely;
    forall k: nat | k < |texts[1..]| - 1
      ensures JoinsSafely(texts[1..], k, supplied) == JoinsSafely(texts, k + 1, supplied)
    {
      LaterJoinsSafely(texts, k, supplied);
    }
    if forall k :: 0 <= k < |texts[1..]| - 1 ==> JoinsSafely(texts[1..], k, supplied) {
      forall k | 0 < k < |texts| - 1
        ensures JoinsSafely(texts, k, supplied)
      {
        assert JoinsSafely(texts[1..], k - 1, supplied);
      }
    }
  }

  lemma {:induction false} FirstJoinsSafely(texts: seq<string>, supplied: nat)
    requires |texts| > 1
    ensures JoinsSafely(texts, 0, supplied)
            <==> AllSupplied(Straddling(texts[0], PARAGRAPH_BREAK + Join(texts[1..], PARAGRAPH_BREAK)), supplied)
  {
    hide AllSupplied, Straddling, ClosesIn, IndexesAt;
    StraddlingIsSupplied(texts[0], Following(texts, 0), supplied);
  }

  lemma {:induction false} LaterJoinsSafely(texts: seq<string>, k: nat, supplied: nat)
    requires k + 1 < |texts|
    ensures JoinsSafely(texts[1..], k, supplied) == JoinsSafely(texts, k + 1, supplied)
  {
    hide AllSupplied, ClosesIn, IndexesAt;
    assert texts[1..][k + 1..] == texts[k + 2..];
    assert texts[1..][k] == texts[k + 1] && Following(texts[1..], k) == Following(texts, k + 1);
  }

  /**
    * Exactly when the text returned for an accepted answer names supplied citations only: when every marker that one of
    * its paragraphs leaves open, and the paragraphs after it close, lists supplied citations only.
    */
  lemma {:induction false} AcceptedAnswerHasOnlySuppliedMarkersExactly(answerText: string, supplied: nat)
    requires IsAccepted(answerText, supplied)
    ensures var texts := Texts(Blocks(answerText));
            AllSupplied(FindMarkers(GroundedText(answerText)), supplied)
            <==> forall k :: 0 <= k < |texts| - 1 ==> JoinsSafely(texts, k, supplied)
  {
    hide FindMarkers, ParseAnswerBlock, Paragraphs, JoinsSafely;
    var blocks := Blocks(answerText);
    forall i | 0 <= i < |blocks|
      ensures AllSupplied(FindMarkers(blocks[i].text), supplied)
    {
      assert IsGrounded(blocks[i], supplied);
    }
    JoinedMarkersAreSupplied(Texts(blocks), supplied);
  }

  /** A grounded paragraph that closes a marker left open before it, with an index nobody supplied. */
  function Intruder(supplied: nat): string {
    ClosingText(supplied + 1, " " + BuildCitationMarker(1))
  }

  lemma {:induction false} IntruderIsGrounded(supplied: nat)
    requires supplied > 0
    ensures FindMarkers(Intruder(supplied)) == [1]
    ensures IsGrounded(ParsedAnswerBlock(Evidence, Intruder(supplied)), supplied)
  {
    hide FindMarkers, BuildCitationMarker, Straddling;
    var front := "," + Decimal(supplied + 1) + "] ";
    assert Intruder(supplied) == front + BuildCitationMarker(1);
    OneMarker(1, "");
    NothingStraddles(front, BuildCitationMarker(1));
    MarkersOfConcat(front, BuildCitationMarker(1));
    NoOpeningNoMarkers(supplied);
  }

  lemma {:induction false} NoOpeningNoMarkers(supplied: nat)
    ensures FindMarkers("," + Decimal(supplied + 1) + "] ") == []
  {
    var d := Decimal(supplied + 1);
    var t := "," + d + "] ";
    assert forall k :: 0 < k <= |d| ==> t[k] == d[k - 1];
    assert t[|d| + 1] == ']' && t[|d| + 2] == ' ';
    NothingOpens(t, 0, |t|);
    MarkersEnd(t);
  }

  /**
    * Exactly when a grounded paragraph is safe to be followed by any grounded paragraph: no marker outside the supplied
    * citations can appear in the joined text if and only if the paragraph does not end inside an opened marker.
    */
  lemma {:induction false} OnlySuppliedMarkersExactlyWithoutOpenTail(x: string, supplied: ArrayLength)
    requires supplied > 0 && IsGrounded(ParsedAnswerBlock(Conclusion, x), supplied)
    ensures (forall y :: IsGrounded(ParsedAnswerBlock(Evidence, y), supplied) ==>
               AllSupplied(FindMarkers(x + PARAGRAPH_BREAK + y), supplied))
            <==> !HasOpenTail(x)
  {
    hide FindMarkers, HasOpenTail, Intruder;
    if HasOpenTail(x) {
      IntruderIsGrounded(supplied);
      OpenTailLetsIntruderIn(x, supplied);
      assert !AllSupplied(FindMarkers(x + PARAGRAPH_BREAK + Intruder(supplied)), supplied);
    } else {
      forall y | IsGrounded(ParsedAnswerBlock(Evidence, y), supplied)
        ensures AllSupplied(FindMarkers(x + PARAGRAPH_BREAK + y), supplied)
      {
        ClosedTailJoins(x, y);
      }
    }
  }

  lemma {:induction false} OpenTailLetsIntruderIn(x: string, supplied: ArrayLength)
    requires HasOpenTail(x)
    ensures supplied + 1 in FindMarkers(x + PARAGRAPH_BREAK + Intruder(supplied))
  {
    hide FindMarkers, OpenTailAt, ClosingText, BuildCitationMarker;
    var p: nat :| OpenTailAt(x, p);
    OpenTailCloses(x, p, supplied + 1, " " + BuildCitationMarker(1));
  }

  /**
    * The validator's contract read the other way: any grounded, tidy conclusion with an open tail is part of an answer
    * that is accepted although its returned text has a marker for a citation that was never supplied.
    */
  lemma {:induction false} AcceptedAnswerWithInventedMarker(x: string, supplied: ArrayLength) returns (answerText: string)
    requires supplied > 0 && HasOpenTail(x) && IsGrounded(ParsedAnswerBlock(Conclusion, x), supplied)
    requires IsTidy(TAG_CONCLUSION + x) && IsTidy(x)
    ensures IsAccepted(answerText, supplied)
    ensures supplied + 1 in FindMarkers(GroundedText(answerText))
  {
    hide FindMarkers, HasOpenTail, Intruder, IsTidy, Decimal, Join, Paragraphs, ParseAnswerBlock, IsGrounded;
    var first, second := TAG_CONCLUSION + x, Intruder(supplied);
    answerText := Join([first, second], PARAGRAPH_BREAK);
    IntruderIsTidy(supplied);
    ParagraphsRoundTrip([first, second]);
    TaggedConclusion(x);
    IntruderIsEvidence(supplied);
    IntruderIsGrounded(supplied);
    OpenTailLetsIntruderIn(x, supplied);
    assert Blocks(answerText) == [ParsedAnswerBlock(Conclusion, x), ParsedAnswerBlock(Evidence, second)];
    assert Texts(Blocks(answerText)) == [x, second];
    JoinOfTwo(x, second);
  }

  lemma {:induction false} JoinOfTwo(x: string, y: string)
    ensures Join([x, y], PARAGRAPH_BREAK) == x + PARAGRAPH_BREAK + y
  {
    assert [x, y][1..] == [y];
  }

  lemma {:induction false} TaggedConclusion(x: string)
    requires IsTidy(x)
    ensures ParseAnswerBlock(TAG_CONCLUSION + x) == ParsedAnswerBlock(Conclusion, x)
  {
    hide ParseAnswerBlock;
    TaggedBlockRoundTrip(Conclusion, "", x);
    assert TAG_CONCLUSION + "" + x == TAG_CONCLUSION + x;
  }

  lemma {:induction false} IntruderIsEvidence(supplied: nat)
    ensures ParseAnswerBlock(Intruder(supplied)) == ParsedAnswerBlock(Evidence, Intruder(supplied))
  {
    assert Intruder(supplied)[0] == ',';
    assert TAG_CONCLUSION[0] == '[' && TAG_EVIDENCE[0] == '[' && TAG_ACTION[0] == '[';
  }

  lemma {:induction false} IntruderIsTidy(supplied: nat)
    ensures IsTidy(Intruder(supplied))
  {
    var t := Intruder(supplied);
    var d := Decimal(supplied + 1);
    var m := BuildCitationMarker(1);
    assert t == "," + d + "] " + m;
    assert Decimal(1) == "1";
    assert m == "[출처: 1]";
    assert forall k :: 0 < k <= |d| ==> t[k] == d[k - 1];
    assert forall k :: |d| + 3 <= k < |t| ==> t[k] == m[k - |d| - 3];
    assert forall k :: 0 <= k < |t| ==> t[k] != '\n';
  }

  /** Such a conclusion exists for every number of supplied citations. */
  lemma {:induction false} OpenConclusionExists(supplied: nat) returns (x: string)
    requires supplied > 0
    ensures HasOpenTail(x) && IsGrounded(ParsedAnswerBlock(Conclusion, x), supplied)
    ensures IsTidy(TAG_CONCLUSION + x) && IsTidy(x)
  {
    hide FindMarkers, HasOpenTail, IsTidy;
    x := MARKER_OPENING + "1";
    OpenConclusionHasNoMarker();
    OpenConclusionIsTidy();
  }

  lemma {:induction false} OpenConclusionHasNoMarker()
    ensures HasOpenTail(MARKER_OPENING + "1") && FindMarkers(MARKER_OPENING + "1") == []
  {
    var x := MARKER_OPENING + "1";
    assert x[0..|MARKER_OPENING|] == MARKER_OPENING;
    assert ListEnd(x, 0) == |x|;
    assert OpenTailAt(x, 0);
    NoBracketInside(x, 0);
    OnlyBracketOpens(x, 0);
    NothingOpens(x, 1, |x|);
    MarkersEnd(x);
  }

  lemma {:induction false} OpenConclusionIsTidy()
    ensures IsTidy(TAG_CONCLUSION + (MARKER_OPENING + "1")) && IsTidy(MARKER_OPENING + "1")
  {
    var t := TAG_CONCLUSION + (MARKER_OPENING + "1");
    assert t == "[결론][출처:1";
    assert forall k :: 0 <= k < |t| ==> t[k] != '\n';
  }
}
