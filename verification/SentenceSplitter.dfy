/**
  * The sentence fallback of the document chunker for a paragraph that alone exceeds the token ceiling
  * (src/domain/ai/document-chunker.ts, splitParagraphIntoSentenceChunks).
  */
module SentenceSplitter {
  import opened JsText
  import opened ParagraphScanner

  /** The number of tokens of a text; the tokenizer is left abstract. */
  type Tokenizer = string -> nat

  const CHUNK_MAX_TOKENS := 1200

  // ----- sentences -----

  /** Where the expression `(?<=[.!?])\s+` can match: whitespace right after a sentence mark. */
  predicate IsBoundary(t: string, p: nat)
    requires p < |t|
  {
    p > 0 && t[p - 1] in ".!?" && IsSpace(t[p])
  }

  function NextBoundary(t: string, from: nat): (p: nat)
    requires from <= |t|
    ensures from <= p <= |t|
    ensures p < |t| ==> IsBoundary(t, p)
    ensures forall k :: from <= k < p ==> !IsBoundary(t, k)
    decreases |t| - from
  {
    if from == |t| || IsBoundary(t, from) then from else NextBoundary(t, from + 1)
  }

  datatype Piece = Piece(start: nat, end: nat)

  function PiecesFrom(t: string, from: nat): (ps: seq<Piece>)
    requires from <= |t|
    ensures ps != []
    decreases |t| - from
  {
    var p := NextBoundary(t, from);
    if p == |t| then [Piece(from, p)] else [Piece(from, p)] + PiecesFrom(t, RunEnd(t, p, IsSpace))
  }

  ghost predicate IsTrimmedText(t: string) {
    t != "" && !IsSpace(t[0]) && !IsSpace(t[|t| - 1])
  }

  /** Sentence `i`: no boundary inside, and a whitespace run after a sentence mark separates it from the one before. */
  ghost predicate PieceFits(t: string, ps: seq<Piece>, i: nat)
    requires i < |ps|
  {
    && ps[i].start < ps[i].end <= |t|
    && !IsSpace(t[ps[i].start]) && !IsSpace(t[ps[i].end - 1])
    && (forall k :: ps[i].start <= k < ps[i].end ==> !IsBoundary(t, k))
    && (i > 0 ==> ps[i - 1].end < ps[i].start && Blank(t, ps[i - 1].end, ps[i].start) && IsBoundary(t, ps[i - 1].end))
  }

  /** `ps` cuts `t[from..]` at every sentence boundary and loses only the whitespace of the gaps. */
  ghost predicate IsSentenceSplit(t: string, from: nat, ps: seq<Piece>) {
    && ps != [] && ps[0].start == from && ps[|ps| - 1].end == |t|
    && forall i :: 0 <= i < |ps| ==> PieceFits(t, ps, i)
  }

  lemma {:induction false} PiecesAreSentences(t: string, from: nat)
    requires IsTrimmedText(t) && from < |t| && !IsSpace(t[from])
    ensures IsSentenceSplit(t, from, PiecesFrom(t, from))
    decreases |t| - from
  {
    var p := NextBoundary(t, from);
    if p < |t| {
      var next := RunEnd(t, p, IsSpace);
      assert next < |t|;
      PiecesAreSentences(t, next);
      SentenceBefore(t, from, p, next, PiecesFrom(t, next));
    }
  }

  /** A sentence ends at the first of the three marks that whitespace follows, or at the end of the paragraph. */
  lemma {:induction false} SentenceEndsAtMark(t: string, ps: seq<Piece>, i: nat)
    requires IsSentenceSplit(t, 0, ps) && i < |ps|
    ensures ps[i].start < ps[i].end <= |t|
    ensures ps[i].end < |t| ==> t[ps[i].end - 1] in {'.', '!', '?'} && IsSpace(t[ps[i].end])
    ensures forall k :: ps[i].start < k < ps[i].end && t[k - 1] in {'.', '!', '?'} ==> !IsSpace(t[k])
  {
    hide IsSpace;
    assert PieceFits(t, ps, i);
    if i + 1 < |ps| {
      assert PieceFits(t, ps, i + 1);
    }
    forall k | ps[i].start < k < ps[i].end && t[k - 1] in {'.', '!', '?'}
      ensures !IsSpace(t[k])
    {
      assert !IsBoundary(t, k);
    }
  }

  lemma {:induction false} SentenceBefore(t: string, from: nat, p: nat, next: nat, rest: seq<Piece>)
    requires IsSentenceSplit(t, next, rest)
    requires from < p < next < |t| && !IsSpace(t[from]) && !IsSpace(t[p - 1]) && !IsSpace(t[next])
    requires Blank(t, p, next) && IsBoundary(t, p) && forall k :: from <= k < p ==> !IsBoundary(t, k)
    ensures IsSentenceSplit(t, from, [Piece(from, p)] + rest)
  {
    hide IsSpace, IsBoundary;
    var ps := [Piece(from, p)] + rest;
    assert PieceFits(t, ps, 0);
    forall i | 0 < i < |ps|
      ensures PieceFits(t, ps, i)
    {
      assert PieceFits(t, rest, i - 1);
    }
  }

  // ----- buckets of sentences -----

  function SentenceText(t: string, ps: seq<Piece>, i: nat): string
    requires i < |ps|
  {
    if ps[i].start <= ps[i].end <= |t| then t[ps[i].start..ps[i].end] else ""
  }

  /** The text of a bucket: its sentences joined by one space, whatever separated them in the paragraph. */
  function BucketText(t: string, ps: seq<Piece>, first: nat, next: nat): string
    requires first < next <= |ps|
  {
    if next == first + 1 then SentenceText(t, ps, first)
    else BucketText(t, ps, first, next - 1) + " " + SentenceText(t, ps, next - 1)
  }

  function SentenceTexts(t: string, ps: seq<Piece>, first: nat, next: nat): (r: seq<string>)
    requires first <= next <= |ps|
    ensures |r| == next - first
  {
    seq(next - first, i requires 0 <= i < next - first => SentenceText(t, ps, first + i))
  }

  lemma {:induction false} JoinOneMore(parts: seq<string>, last: string, separator: string)
    requires parts != []
    ensures Join(parts + [last], separator) == Join(parts, separator) + separator + last
  {
    if |parts| > 1 {
      assert (parts + [last])[1..] == parts[1..] + [last];
      JoinOneMore(parts[1..], last, separator);
      assert parts[0] + separator + (Join(parts[1..], separator) + separator + last)
          == (parts[0] + separator + Join(parts[1..], separator)) + separator + last;
    } else {
      assert (parts + [last])[1..] == [last];
    }
  }

  /** A bucket is its sentences joined by one space. */
  lemma {:induction false} BucketTextIsJoin(t: string, ps: seq<Piece>, first: nat, next: nat)
    requires first < next <= |ps|
    ensures BucketText(t, ps, first, next) == Join(SentenceTexts(t, ps, first, next), " ")
  {
    hide SentenceText, Join;
    if next == first + 1 {
      JoinOfOne(SentenceText(t, ps, first), " ");
      assert SentenceTexts(t, ps, first, next) == [SentenceText(t, ps, first)];
    } else {
      BucketTextIsJoin(t, ps, first, next - 1);
      JoinOneMore(SentenceTexts(t, ps, first, next - 1), SentenceText(t, ps, next - 1), " ");
      assert SentenceTexts(t, ps, first, next)
          == SentenceTexts(t, ps, first, next - 1) + [SentenceText(t, ps, next - 1)];
    }
  }

  lemma {:induction false} JoinOfOne(part: string, separator: string)
    ensures Join([part], separator) == part
  {
  }

  /** A single space separates sentence `i` from the one before. */
  ghost predicate IsSpaced(t: string, ps: seq<Piece>, i: nat)
    requires 0 < i < |ps|
  {
    ps[i - 1].end <= ps[i].start <= |t| && t[ps[i - 1].end..ps[i].start] == " "
  }

  lemma {:induction false} SentenceIsSlice(t: string, from: nat, ps: seq<Piece>, i: nat)
    requires IsSentenceSplit(t, from, ps) && i < |ps|
    ensures ps[i].start < ps[i].end <= |t| && SentenceText(t, ps, i) == t[ps[i].start..ps[i].end]
  {
    hide IsBoundary, IsSpace;
    assert PieceFits(t, ps, i);
  }

  /** Where single spaces separate its sentences, a bucket is the very slice of the paragraph. */
  lemma {:induction false} BucketTextIsSlice(t: string, from: nat, ps: seq<Piece>, first: nat, next: nat)
    requires IsSentenceSplit(t, from, ps) && first < next <= |ps|
    requires forall i :: first < i < next ==> IsSpaced(t, ps, i)
    ensures ps[first].start < ps[next - 1].end <= |t|
    ensures BucketText(t, ps, first, next) == t[ps[first].start..ps[next - 1].end]
  {
    hide IsSentenceSplit, SentenceText;
    SentenceIsSlice(t, from, ps, next - 1);
    if next > first + 1 {
      BucketTextIsSlice(t, from, ps, first, next - 1);
      assert IsSpaced(t, ps, next - 1);
      SlicesMeet(t, ps[first].start, ps[next - 2].end, ps[next - 1].start, ps[next - 1].end);
    }
  }

  lemma {:induction false} SlicesMeet(t: string, a: nat, b: nat, c: nat, d: nat)
    requires a <= b <= c <= d <= |t|
    ensures t[a..b] + t[b..c] + t[c..d] == t[a..d]
  {
  }

  /** The sentences `first..next`. */
  datatype Bucket = Bucket(first: nat, next: nat)

  function PackFrom(t: string, ps: seq<Piece>, first: nat, next: nat, tokens: Tokenizer): (r: seq<Bucket>)
    requires first < next <= |ps|
    ensures forall b :: b in r ==> b.first < b.next <= |ps|
    decreases |ps| - next
  {
    if next == |ps| then [Bucket(first, next)]
    else if tokens(BucketText(t, ps, first, next + 1)) > CHUNK_MAX_TOKENS
    then [Bucket(first, next)] + PackFrom(t, ps, next, next + 1, tokens)
    else PackFrom(t, ps, first, next + 1, tokens)
  }

  /** Every gap between the sentences `first..next` is one character wide. */
  ghost predicate NarrowGaps(ps: seq<Piece>, first: nat, next: nat)
    requires first < next <= |ps|
  {
    forall i :: first < i < next ==> ps[i].start == ps[i - 1].end + 1
  }

  /** Joining by one space never lengthens a bucket, and keeps its length exactly when all its gaps are narrow. */
  lemma {:induction false} BucketTextLength(t: string, from: nat, ps: seq<Piece>, first: nat, next: nat)
    requires IsSentenceSplit(t, from, ps) && first < next <= |ps|
    ensures 0 < |BucketText(t, ps, first, next)| <= ps[next - 1].end - ps[first].start
    ensures |BucketText(t, ps, first, next)| == ps[next - 1].end - ps[first].start <==> NarrowGaps(ps, first, next)
  {
    hide IsSpace, IsBoundary, NarrowGaps, PieceFits, SentenceText, IsSentenceSplit;
    SentenceLength(t, from, ps, next - 1);
    if next > first + 1 {
      BucketTextLength(t, from, ps, first, next - 1);
      var text := BucketText(t, ps, first, next - 1);
      assert |BucketText(t, ps, first, next)| == |text| + 1 + (ps[next - 1].end - ps[next - 1].start);
    }
    NarrowGapsStep(ps, first, next);
  }

  lemma {:induction false} SentenceLength(t: string, from: nat, ps: seq<Piece>, i: nat)
    requires IsSentenceSplit(t, from, ps) && i < |ps|
    ensures |SentenceText(t, ps, i)| == ps[i].end - ps[i].start > 0
    ensures i > 0 ==> ps[i - 1].end < ps[i].start
  {
    hide IsSpace, IsBoundary;
    assert PieceFits(t, ps, i);
  }

  lemma {:induction false} NarrowGapsStep(ps: seq<Piece>, first: nat, next: nat)
    requires first < next <= |ps|
    ensures NarrowGaps(ps, first, next)
            <==> next == first + 1 || (NarrowGaps(ps, first, next - 1) && ps[next - 1].start == ps[next - 2].end + 1)
  {
  }

  /** The buckets cover the sentences from `first` on, in order and without overlap. */
  ghost predicate IsBucketing(ps: seq<Piece>, first: nat, buckets: seq<Bucket>) {
    && buckets != [] && buckets[0].first == first && buckets[|buckets| - 1].next == |ps|
    && (forall i :: 0 <= i < |buckets| ==> buckets[i].first < buckets[i].next <= |ps|)
    && (forall i :: 0 < i < |buckets| ==> buckets[i].first == buckets[i - 1].next)
  }

  /** A bucket of several sentences stays within the ceiling, and no bucket could have taken the next sentence too. */
  ghost predicate IsGreedyBucket(t: string, ps: seq<Piece>, b: Bucket, tokens: Tokenizer)
    requires b.first < b.next <= |ps|
  {
    && (b.next > b.first + 1 ==> tokens(BucketText(t, ps, b.first, b.next)) <= CHUNK_MAX_TOKENS)
    && (b.next < |ps| ==> tokens(BucketText(t, ps, b.first, b.next + 1)) > CHUNK_MAX_TOKENS)
  }

  lemma {:induction false} PackFromIsBucketing(t: string, ps: seq<Piece>, first: nat, next: nat, tokens: Tokenizer)
    requires first < next <= |ps|
    ensures IsBucketing(ps, first, PackFrom(t, ps, first, next, tokens))
    decreases |ps| - next
  {
    hide BucketText, IsBucketing;
    if next == |ps| {
      LastBucket(ps, first);
    } else if tokens(BucketText(t, ps, first, next + 1)) > CHUNK_MAX_TOKENS {
      PackFromIsBucketing(t, ps, next, next + 1, tokens);
      BucketBefore(ps, first, next, PackFrom(t, ps, next, next + 1, tokens));
    } else {
      PackFromIsBucketing(t, ps, first, next + 1, tokens);
    }
  }

  lemma {:induction false} LastBucket(ps: seq<Piece>, first: nat)
    requires first < |ps|
    ensures IsBucketing(ps, first, [Bucket(first, |ps|)])
  {
  }

  lemma {:induction false} BucketBefore(ps: seq<Piece>, first: nat, next: nat, buckets: seq<Bucket>)
    requires first < next <= |ps| && IsBucketing(ps, next, buckets)
    ensures IsBucketing(ps, first, [Bucket(first, next)] + buckets)
  {
  }

  lemma {:induction false} PackFromIsGreedy(
      t: string, ps: seq<Piece>, first: nat, next: nat, tokens: Tokenizer, b: Bucket)
    requires first < next <= |ps| && b in PackFrom(t, ps, first, next, tokens)
    requires next > first + 1 ==> tokens(BucketText(t, ps, first, next)) <= CHUNK_MAX_TOKENS
    ensures IsGreedyBucket(t, ps, b, tokens)
    decreases |ps| - next
  {
    hide BucketText;
    if next < |ps| {
      if tokens(BucketText(t, ps, first, next + 1)) <= CHUNK_MAX_TOKENS {
        PackFromIsGreedy(t, ps, first, next + 1, tokens, b);
      } else if b != Bucket(first, next) {
        PackFromIsGreedy(t, ps, next, next + 1, tokens, b);
      }
    }
  }

  // ----- parts: raw paragraphs with the place where their content really ends -----

  /** What reaches the packer: `raw` as the code computes it, and the offset where its last sentence really ends. */
  datatype Part = Part(raw: RawParagraph, trueEnd: nat)

  function WholePart(p: RawParagraph): Part {
    Part(p, p.endOffset)
  }

  /** The record pushed for a bucket that starts at `bucketStart` within its paragraph. */
  function BucketRecord(p: RawParagraph, bucket: string, bucketStart: nat): RawParagraph {
    var start := p.startOffset + bucketStart;
    RawParagraph(bucket, start, start + |bucket|, p.headingContext)
  }

  function BucketPart(p: RawParagraph, ps: seq<Piece>, b: Bucket): Part
    requires b.first < b.next <= |ps|
  {
    Part(BucketRecord(p, BucketText(p.text, ps, b.first, b.next), ps[b.first].start), p.startOffset + ps[b.next - 1].end)
  }

  function BucketParts(p: RawParagraph, ps: seq<Piece>, buckets: seq<Bucket>): (r: seq<Part>)
    requires forall b :: b in buckets ==> b.first < b.next <= |ps|
    ensures |r| == |buckets|
  {
    seq(|buckets|, i requires 0 <= i < |buckets| => BucketPart(p, ps, buckets[i]))
  }

  function Raws(parts: seq<Part>): (r: seq<RawParagraph>)
    ensures |r| == |parts|
  {
    seq(|parts|, i requires 0 <= i < |parts| => parts[i].raw)
  }

  method SplitIntoPieces(t: string) returns (pieces: seq<Piece>)
    ensures pieces == PiecesFrom(t, 0)
  {
    pieces := [];
    var lastIndex := 0;
    var p := NextBoundary(t, lastIndex);
    while p < |t|
      invariant 0 <= lastIndex <= p <= |t| && p == NextBoundary(t, lastIndex)
      invariant pieces + PiecesFrom(t, lastIndex) == PiecesFrom(t, 0)
      decreases |t| - lastIndex
    {
      pieces := pieces + [Piece(lastIndex, p)];
      lastIndex := RunEnd(t, p, IsSpace);
      p := NextBoundary(t, lastIndex);
    }
    pieces := pieces + [Piece(lastIndex, |t|)];
  }

  /** The buckets of a paragraph, each with its computed and its real extent. */
  function SentenceParts(p: RawParagraph, tokens: Tokenizer): seq<Part> {
    var ps := PiecesFrom(p.text, 0);
    BucketParts(p, ps, PackFrom(p.text, ps, 0, 1, tokens))
  }

  lemma {:induction false} BucketTextStart(t: string, from: nat, ps: seq<Piece>, first: nat, next: nat)
    requires IsSentenceSplit(t, from, ps) && first < next <= |ps|
    ensures BucketText(t, ps, first, next) != "" && Trim(BucketText(t, ps, first, next)) != ""
  {
    hide IsBoundary;
    FirstCharacterStays(t, from, ps, first, next);
    assert PieceFits(t, ps, first);
    assert !Blank(BucketText(t, ps, first, next), 0, |BucketText(t, ps, first, next)|);
  }

  lemma {:induction false} FirstCharacterStays(t: string, from: nat, ps: seq<Piece>, first: nat, next: nat)
    requires IsSentenceSplit(t, from, ps) && first < next <= |ps|
    ensures PieceFits(t, ps, first)
    ensures BucketText(t, ps, first, next) != "" && BucketText(t, ps, first, next)[0] == t[ps[first].start]
  {
    hide IsBoundary, IsSpace, SentenceText, PieceFits, IsSentenceSplit;
    FirstOfSentence(t, from, ps, first);
    if next > first + 1 {
      FirstCharacterStays(t, from, ps, first, next - 1);
      var front := BucketText(t, ps, first, next - 1);
      assert BucketText(t, ps, first, next) == front + (" " + SentenceText(t, ps, next - 1));
    }
  }

  lemma {:induction false} FirstOfSentence(t: string, from: nat, ps: seq<Piece>, i: nat)
    requires IsSentenceSplit(t, from, ps) && i < |ps|
    ensures PieceFits(t, ps, i) && SentenceText(t, ps, i) != "" && SentenceText(t, ps, i)[0] == t[ps[i].start]
  {
    hide IsBoundary, IsSpace;
    assert PieceFits(t, ps, i);
  }

  /** What the loop still has to push when sentences `first..next` are in the bucket. */
  function Pending(p: RawParagraph, ps: seq<Piece>, first: nat, next: nat, tokens: Tokenizer): seq<RawParagraph>
    requires first < next <= |ps|
  {
    Raws(BucketParts(p, ps, PackFrom(p.text, ps, first, next, tokens)))
  }

  lemma {:induction false} PendingStep(p: RawParagraph, ps: seq<Piece>, first: nat, next: nat, tokens: Tokenizer)
    requires first < next <= |ps|
    ensures var record := BucketRecord(p, BucketText(p.text, ps, first, next), ps[first].start);
            Pending(p, ps, first, next, tokens) ==
            if next == |ps| then [record]
            else if tokens(BucketText(p.text, ps, first, next + 1)) > CHUNK_MAX_TOKENS
            then [record] + Pending(p, ps, next, next + 1, tokens)
            else Pending(p, ps, first, next + 1, tokens)
  {
    hide BucketText, BucketRecord;
  }

  lemma {:induction false} BucketTextGrows(t: string, from: nat, ps: seq<Piece>, first: nat, k: nat)
    requires IsSentenceSplit(t, from, ps) && first < k <= |ps|
    ensures PieceFits(t, ps, k - 1)
    ensures BucketText(t, ps, k - 1, k) == t[ps[k - 1].start..ps[k - 1].end]
    ensures first + 1 < k ==>
              BucketText(t, ps, first, k) == BucketText(t, ps, first, k - 1) + " " + t[ps[k - 1].start..ps[k - 1].end]
  {
    hide IsSpace, IsBoundary;
    assert PieceFits(t, ps, k - 1);
  }

  method SplitParagraphIntoSentenceChunks(
      paragraph: RawParagraph, tokens: Tokenizer) returns (result: seq<RawParagraph>)
    requires IsTrimmedText(paragraph.text)
    ensures result == Raws(SentenceParts(paragraph, tokens))
  {
    hide IsSpace, IsBoundary, Trim, PiecesFrom, Pending, BucketText;
    var text := paragraph.text;
    var pieces := SplitIntoPieces(text);
    PiecesAreSentences(text, 0);
    ghost var all := Pending(paragraph, pieces, 0, 1, tokens);
    result := [];
    var bucket := "";
    var bucketStart := 0;
    ghost var first := 0;
    var k := 0;
    while k < |pieces|
      invariant 0 <= k <= |pieces|
      invariant k == 0 ==> bucket == "" && bucketStart == 0 && result == [] && first == 0
      invariant k > 0 ==> first < k && bucket == BucketText(text, pieces, first, k) && bucket != ""
      invariant bucketStart == pieces[first].start
      invariant k > 0 ==> result + Pending(paragraph, pieces, first, k, tokens) == all
    {
      var piece := pieces[k];
      BucketTextGrows(text, 0, pieces, if first < k then first else k, k + 1);
      var pieceText := text[piece.start..piece.end];
      var candidate := if bucket != "" then bucket + " " + pieceText else pieceText;
      if k > 0 {
        PendingStep(paragraph, pieces, first, k, tokens);
      }
      if bucket != "" && tokens(candidate) > CHUNK_MAX_TOKENS {
        result := result + [BucketRecord(paragraph, bucket, bucketStart)];
        bucket := pieceText;
        bucketStart := piece.start;
        first := k;
      } else {
        bucket := candidate;
      }
      k := k + 1;
    }
    BucketTextStart(text, 0, pieces, first, k);
    PendingStep(paragraph, pieces, first, k, tokens);
    if Trim(bucket) != "" {
      result := result + [BucketRecord(paragraph, bucket, bucketStart)];
    }
    PendingIsEverything(paragraph, pieces, tokens);
    return if |result| > 0 then result else [paragraph];
  }

  lemma {:induction false} PendingIsEverything(p: RawParagraph, ps: seq<Piece>, tokens: Tokenizer)
    requires ps == PiecesFrom(p.text, 0)
    ensures Pending(p, ps, 0, 1, tokens) == Raws(SentenceParts(p, tokens))
  {
  }
}
