/** Boundary-aware, token-budgeted chunking of a contract text (src/domain/ai/document-chunker.ts). */
module DocumentChunker {
  import opened JsText
  import opened Seqs
  import opened ParagraphScanner
  import opened SentenceSplitter
  import opened ChunkPacking

  /** The search normalization of a chunk's text; left abstract here, see module NormalizeClauseText. */
  type Normalizer = string -> string

  const MIN_STANDALONE_CHUNK_TOKENS := 50

  datatype DocumentChunk = DocumentChunk(
    chunkIndex: nat, text: string, normalizedText: string, tokenCount: nat,
    startOffset: nat, endOffset: nat, headingContext: Option<string>)

  // ----- the parts handed to the packer -----

  function ParagraphParts(p: RawParagraph, tokens: Tokenizer): seq<Part> {
    if tokens(p.text) > CHUNK_MAX_TOKENS then SentenceParts(p, tokens) else [WholePart(p)]
  }

  function PartsOf(ps: seq<RawParagraph>, tokens: Tokenizer): seq<Part> {
    if ps == [] then [] else PartsOf(ps[..|ps| - 1], tokens) + ParagraphParts(ps[|ps| - 1], tokens)
  }

  function TrueEndBefore(parts: seq<Part>, i: nat): nat
    requires i <= |parts|
  {
    if i == 0 then 0 else parts[i - 1].trueEnd
  }

  /** Part `i` starts and really ends in non-whitespace, and only whitespace lies between it and the part before. */
  ghost predicate PartFits(t: string, parts: seq<Part>, i: nat)
    requires i < |parts|
  {
    var p := parts[i];
    && p.raw.startOffset < p.raw.endOffset <= p.trueEnd <= |t|
    && !IsSpace(t[p.raw.startOffset]) && !IsSpace(t[p.trueEnd - 1])
    && TrueEndBefore(parts, i) <= p.raw.startOffset && Blank(t, TrueEndBefore(parts, i), p.raw.startOffset)
  }

  /** The parts lose nothing but whitespace of `t[..upTo]`, up to where each of them really ends. */
  ghost predicate Tiled(t: string, parts: seq<Part>, upTo: nat)
    requires upTo <= |t|
  {
    && (forall i :: 0 <= i < |parts| ==> PartFits(t, parts, i))
    && TrueEndBefore(parts, |parts|) <= upTo && Blank(t, TrueEndBefore(parts, |parts|), upTo)
  }

  ghost predicate PartWithin(t: string, p: RawParagraph, part: Part) {
    && part.raw.startOffset < part.raw.endOffset <= part.trueEnd <= |t|
    && !IsSpace(t[part.raw.startOffset]) && !IsSpace(t[part.trueEnd - 1])
    && part.raw.headingContext == p.headingContext
  }

  ghost predicate BlankBetween(t: string, part: Part, next: Part) {
    && part.trueEnd <= next.raw.startOffset <= |t|
    && Blank(t, part.trueEnd, next.raw.startOffset)
  }

  /** `parts` tile exactly the paragraph `p`. */
  ghost predicate TilesParagraph(t: string, p: RawParagraph, parts: seq<Part>) {
    && parts != []
    && parts[0].raw.startOffset == p.startOffset && parts[|parts| - 1].trueEnd == p.endOffset
    && (forall i :: 0 <= i < |parts| ==> PartWithin(t, p, parts[i]))
    && (forall i :: 0 < i < |parts| ==> BlankBetween(t, parts[i - 1], parts[i]))
  }

  lemma {:induction false} BucketPartFits(t: string, p: RawParagraph, ps: seq<Piece>, b: Bucket)
    requires IsBlock(t, p) && IsSentenceSplit(p.text, 0, ps) && b.first < b.next <= |ps|
    ensures PartWithin(t, p, BucketPart(p, ps, b))
    ensures BucketPart(p, ps, b).raw.endOffset == BucketPart(p, ps, b).trueEnd <==> NarrowGaps(ps, b.first, b.next)
  {
    hide IsSpace, IsBoundary, BucketText, HasBlankLine, NarrowGaps;
    BucketTextLength(p.text, 0, ps, b.first, b.next);
    assert PieceFits(p.text, ps, b.first) && PieceFits(p.text, ps, b.next - 1);
    assert forall k :: 0 <= k < |p.text| ==> p.text[k] == t[p.startOffset + k];
  }

  lemma {:induction false} BucketGapIsBlank(t: string, p: RawParagraph, ps: seq<Piece>, b: Bucket, c: Bucket)
    requires IsBlock(t, p) && IsSentenceSplit(p.text, 0, ps)
    requires b.first < b.next == c.first < c.next <= |ps|
    ensures BlankBetween(t, BucketPart(p, ps, b), BucketPart(p, ps, c))
  {
    hide IsSpace, IsBoundary, BucketText;
    assert PieceFits(p.text, ps, c.first);
    assert forall k :: p.startOffset <= k < p.endOffset ==> t[k] == p.text[k - p.startOffset];
  }

  lemma {:induction false} BucketPartsTile(t: string, p: RawParagraph, ps: seq<Piece>, buckets: seq<Bucket>)
    requires IsBlock(t, p) && IsSentenceSplit(p.text, 0, ps) && IsBucketing(ps, 0, buckets)
    ensures TilesParagraph(t, p, BucketParts(p, ps, buckets))
  {
    hide IsBlock, IsSentenceSplit, PartWithin, BlankBetween, BucketText;
    assert p.endOffset == p.startOffset + |p.text| && ps[0].start == 0 && ps[|ps| - 1].end == |p.text| by {
      TextLength(t, p, ps);
    }
    forall i | 0 <= i < |buckets|
      ensures PartWithin(t, p, BucketPart(p, ps, buckets[i]))
    {
      BucketPartFits(t, p, ps, buckets[i]);
    }
    forall i | 0 < i < |buckets|
      ensures BlankBetween(t, BucketPart(p, ps, buckets[i - 1]), BucketPart(p, ps, buckets[i]))
    {
      BucketGapIsBlank(t, p, ps, buckets[i - 1], buckets[i]);
    }
  }

  lemma {:induction false} TextLength(t: string, p: RawParagraph, ps: seq<Piece>)
    requires IsBlock(t, p) && IsSentenceSplit(p.text, 0, ps)
    ensures p.endOffset == p.startOffset + |p.text| && ps[0].start == 0 && ps[|ps| - 1].end == |p.text|
  {
  }

  lemma {:induction false} SentencePartsTile(t: string, p: RawParagraph, tokens: Tokenizer)
    requires IsBlock(t, p)
    ensures TilesParagraph(t, p, SentenceParts(p, tokens))
  {
    hide IsSpace, PackFrom, PiecesFrom, HasBlankLine, IsBucketing, TilesParagraph, IsSentenceSplit;
    var ps := PiecesFrom(p.text, 0);
    PiecesAreSentences(p.text, 0);
    PackFromIsBucketing(p.text, ps, 0, 1, tokens);
    BucketPartsTile(t, p, ps, PackFrom(p.text, ps, 0, 1, tokens));
  }

  lemma {:induction false} ParagraphPartsTile(t: string, p: RawParagraph, tokens: Tokenizer)
    requires IsBlock(t, p)
    ensures TilesParagraph(t, p, ParagraphParts(p, tokens))
  {
    hide IsSpace, SentenceParts;
    SentencePartsTile(t, p, tokens);
  }

  lemma {:induction false} TiledOneMore(t: string, parts: seq<Part>, p: RawParagraph, more: seq<Part>, upTo: nat)
    requires upTo <= p.startOffset < p.endOffset <= |t| && Blank(t, upTo, p.startOffset)
    requires Tiled(t, parts, upTo) && TilesParagraph(t, p, more)
    ensures Tiled(t, parts + more, p.endOffset)
  {
    hide IsSpace;
    var all := parts + more;
    forall i | 0 <= i < |all|
      ensures PartFits(t, all, i)
    {
      if i < |parts| {
        assert PartFits(t, parts, i);
        assert TrueEndBefore(all, i) == TrueEndBefore(parts, i);
      } else if i == |parts| {
        assert TrueEndBefore(all, i) == TrueEndBefore(parts, i);
        BlankConcat(t, TrueEndBefore(parts, i), upTo, p.startOffset);
      } else {
        assert TrueEndBefore(all, i) == more[i - |parts| - 1].trueEnd;
      }
    }
    assert TrueEndBefore(all, |all|) == p.endOffset;
  }

  lemma {:induction false} PartsAreTiled(
      t: string, heading: HeadingDetector, ps: seq<RawParagraph>, tokens: Tokenizer, upTo: nat)
    requires upTo <= |t| && Scanned(t, heading, ps, upTo)
    ensures Tiled(t, PartsOf(ps, tokens), upTo)
  {
    hide IsSpace, ParagraphParts, TilesParagraph, HasBlankLine, HasTwoLineFeeds, HeadingAfter, PartFits;
    if ps != [] {
      var front, p := ps[..|ps| - 1], ps[|ps| - 1];
      assert ParagraphFits(t, heading, ps, |ps| - 1);
      ScannedFront(t, heading, ps, upTo);
      PartsAreTiled(t, heading, front, tokens, p.startOffset);
      ParagraphPartsTile(t, p, tokens);
      TiledOneMore(t, PartsOf(front, tokens), p, ParagraphParts(p, tokens), p.startOffset);
    }
  }

  lemma {:induction false} ScannedFront(t: string, heading: HeadingDetector, ps: seq<RawParagraph>, upTo: nat)
    requires upTo <= |t| && Scanned(t, heading, ps, upTo) && ps != []
    ensures ParagraphFits(t, heading, ps, |ps| - 1)
    ensures Scanned(t, heading, ps[..|ps| - 1], ps[|ps| - 1].startOffset)
  {
    hide IsSpace, HasBlankLine, HasTwoLineFeeds, HeadingAfter;
    var front := ps[..|ps| - 1];
    forall i | 0 <= i < |front|
      ensures ParagraphFits(t, heading, front, i)
    {
      assert ParagraphFits(t, heading, ps, i);
      assert EndBefore(front, i) == EndBefore(ps, i) && HeadingBefore(front, i) == HeadingBefore(ps, i);
    }
    assert EndBefore(front, |front|) == EndBefore(ps, |ps| - 1);
    assert ParagraphFits(t, heading, ps, |ps| - 1);
  }

  // ----- chunks -----

  /** `t.slice(a, b)` for non-negative arguments. */
  function Slice(t: string, a: nat, b: nat): string {
    var hi := if b < |t| then b else |t|;
    if a < hi then t[a..hi] else ""
  }

  function GroupStart(g: seq<Part>): nat
    requires g != []
  {
    g[0].raw.startOffset
  }

  function GroupEnd(g: seq<Part>): nat
    requires g != []
  {
    g[|g| - 1].raw.endOffset
  }

  /** The chunk of the document from the first to the last paragraph of a bucket. */
  function ChunkOf(
      t: string, g: seq<Part>, index: nat, tokens: Tokenizer, normalize: Normalizer): DocumentChunk
    requires g != []
  {
    var text := Slice(t, GroupStart(g), GroupEnd(g));
    DocumentChunk(index, text, normalize(text), tokens(text), GroupStart(g), GroupEnd(g), g[|g| - 1].raw.headingContext)
  }

  function Weight(tokens: Tokenizer): Part -> nat {
    (p: Part) => tokens(p.raw.text)
  }

  ghost predicate AllNonEmpty(groups: seq<seq<Part>>) {
    forall i :: 0 <= i < |groups| ==> groups[i] != []
  }

  lemma {:induction false} GreedyGroupsNonEmpty(parts: seq<Part>, weight: Part -> nat)
    ensures AllNonEmpty(Greedy(parts, weight))
  {
    GreedyIsGrouping(parts, weight);
    assert forall i :: 0 <= i < |Greedy(parts, weight)| ==> Greedy(parts, weight)[i] in Greedy(parts, weight);
  }

  /** The buckets after the merge of a too small last chunk into its predecessor. */
  function FinalGroups(t: string, groups: seq<seq<Part>>, tokens: Tokenizer): (r: seq<seq<Part>>)
    requires AllNonEmpty(groups)
    ensures AllNonEmpty(r)
    ensures |r| <= |groups|
  {
    var n := |groups|;
    if n >= 2 && tokens(Slice(t, GroupStart(groups[n - 1]), GroupEnd(groups[n - 1]))) < MIN_STANDALONE_CHUNK_TOKENS
    then groups[..n - 2] + [groups[n - 2] + groups[n - 1]]
    else groups
  }

  function Groups(t: string, parts: seq<Part>, tokens: Tokenizer): (r: seq<seq<Part>>)
    ensures AllNonEmpty(r)
  {
    GreedyGroupsNonEmpty(parts, Weight(tokens));
    FinalGroups(t, Greedy(parts, Weight(tokens)), tokens)
  }

  function ChunksOfGroups(
      t: string, groups: seq<seq<Part>>, tokens: Tokenizer, normalize: Normalizer): (r: seq<DocumentChunk>)
    requires AllNonEmpty(groups)
    ensures |r| == |groups|
    ensures forall i :: 0 <= i < |groups| ==> r[i] == ChunkOf(t, groups[i], i, tokens, normalize)
  {
    seq(|groups|, i requires 0 <= i < |groups| => ChunkOf(t, groups[i], i, tokens, normalize))
  }

  /** The chunks of a document whose paragraphs are `ps`. */
  function ChunksOf(
      t: string, ps: seq<RawParagraph>, tokens: Tokenizer, normalize: Normalizer): seq<DocumentChunk> {
    ChunksOfGroups(t, Groups(t, PartsOf(ps, tokens), tokens), tokens, normalize)
  }

  // ----- what the chunks are worth -----

  lemma {:induction false} PartsAreOrdered(t: string, parts: seq<Part>, upTo: nat, i: nat, j: nat)
    requires upTo <= |t| && Tiled(t, parts, upTo) && i < j < |parts|
    ensures parts[i].trueEnd <= parts[j].raw.startOffset
  {
    hide IsSpace;
    assert PartFits(t, parts, j);
    if i < j - 1 {
      PartsAreOrdered(t, parts, upTo, i, j - 1);
      assert PartFits(t, parts, j - 1);
    }
  }

  /** Only whitespace lies outside the real extents of the parts. */
  lemma {:induction false} FindPart(t: string, parts: seq<Part>, upTo: nat, k: nat, n: nat) returns (j: nat)
    requires upTo <= |t| && Tiled(t, parts, upTo) && n <= |parts|
    requires k < |t| && k < TrueEndBefore(parts, n) && !IsSpace(t[k])
    ensures j < n && parts[j].raw.startOffset <= k < parts[j].trueEnd
  {
    hide IsSpace;
    assert PartFits(t, parts, n - 1);
    if k >= parts[n - 1].raw.startOffset {
      j := n - 1;
    } else {
      j := FindPart(t, parts, upTo, k, n - 1);
    }
  }

  lemma {:induction false} FinalGroupsKeepParts(t: string, groups: seq<seq<Part>>, tokens: Tokenizer)
    requires AllNonEmpty(groups)
    ensures Flatten(FinalGroups(t, groups, tokens)) == Flatten(groups)
  {
    var n := |groups|;
    if n >= 2 {
      FlattenAppend(groups[..n - 2], [groups[n - 2] + groups[n - 1]]);
      FlattenSingle(groups[n - 2] + groups[n - 1]);
      FlattenAppend(groups[..n - 2], [groups[n - 2], groups[n - 1]]);
      FlattenAppend([groups[n - 2]], [groups[n - 1]]);
      FlattenSingle(groups[n - 2]);
      FlattenSingle(groups[n - 1]);
      assert groups == groups[..n - 2] + [groups[n - 2], groups[n - 1]];
      assert [groups[n - 2], groups[n - 1]] == [groups[n - 2]] + [groups[n - 1]];
    }
  }

  /** A cutting of tiled parts into non-empty groups. */
  ghost predicate IsCutting(t: string, parts: seq<Part>, groups: seq<seq<Part>>) {
    Tiled(t, parts, |t|) && Flatten(groups) == parts && AllNonEmpty(groups)
  }

  lemma {:induction false} GroupsCutParts(t: string, heading: HeadingDetector, ps: seq<RawParagraph>, tokens: Tokenizer)
    requires IsParagraphing(t, heading, ps)
    ensures IsCutting(t, PartsOf(ps, tokens), Groups(t, PartsOf(ps, tokens), tokens))
  {
    hide PartsOf, Greedy, FinalGroups, Scanned, Tiled;
    var parts := PartsOf(ps, tokens);
    PartsAreTiled(t, heading, ps, tokens, |t|);
    GreedyIsGrouping(parts, Weight(tokens));
    GreedyGroupsNonEmpty(parts, Weight(tokens));
    FinalGroupsKeepParts(t, Greedy(parts, Weight(tokens)), tokens);
  }

  /** The parts of group `i`, by position in the whole list. */
  lemma {:induction false} GroupEnds(t: string, parts: seq<Part>, groups: seq<seq<Part>>, i: nat)
    requires IsCutting(t, parts, groups) && i < |groups|
    ensures Cut(groups, i) < Cut(groups, i + 1) <= |parts|
    ensures groups[i][0] == parts[Cut(groups, i)] && groups[i][|groups[i]| - 1] == parts[Cut(groups, i + 1) - 1]
    ensures PartFits(t, parts, Cut(groups, i)) && PartFits(t, parts, Cut(groups, i + 1) - 1)
    ensures GroupStart(groups[i]) < GroupEnd(groups[i]) <= |t|
  {
    hide PartFits, Cut;
    GroupIsSlice(groups, i);
    var a, b := Cut(groups, i), Cut(groups, i + 1);
    assert parts[a..b] == groups[i] && parts[a..b][0] == parts[a] && parts[a..b][b - a - 1] == parts[b - 1];
    assert PartFits(t, parts, a) && PartFits(t, parts, b - 1);
    StartBeforeEnd(t, parts, a, b - 1);
  }

  lemma {:induction false} StartBeforeEnd(t: string, parts: seq<Part>, i: nat, j: nat)
    requires Tiled(t, parts, |t|) && i <= j < |parts|
    ensures parts[i].raw.startOffset < parts[j].raw.endOffset <= |t|
  {
    hide IsSpace;
    assert PartFits(t, parts, i) && PartFits(t, parts, j);
    if i < j {
      PartsAreOrdered(t, parts, |t|, i, j);
    }
  }

  lemma {:induction false} GroupsAreOrdered(t: string, parts: seq<Part>, groups: seq<seq<Part>>, i: nat, j: nat)
    requires IsCutting(t, parts, groups) && i < j < |groups|
    ensures groups[i] != [] && groups[j] != []
    ensures GroupEnd(groups[i]) <= groups[i][|groups[i]| - 1].trueEnd <= GroupStart(groups[j])
  {
    hide Cut, IsSpace, Tiled;
    GroupEnds(t, parts, groups, i);
    GroupEnds(t, parts, groups, j);
    CutsIncrease(groups, i + 1, j);
    PartsAreOrdered(t, parts, |t|, Cut(groups, i + 1) - 1, Cut(groups, j));
  }

  /** Chunks are numbered from 0; each is a non-empty slice of the document with its own token count; they never overlap. */
  ghost predicate AreSlices(t: string, chunks: seq<DocumentChunk>, tokens: Tokenizer, normalize: Normalizer) {
    && (forall i :: 0 <= i < |chunks| ==>
          && chunks[i].chunkIndex == i
          && chunks[i].startOffset < chunks[i].endOffset <= |t|
          && chunks[i].text == t[chunks[i].startOffset..chunks[i].endOffset]
          && chunks[i].normalizedText == normalize(chunks[i].text) && chunks[i].tokenCount == tokens(chunks[i].text))
    && (forall i, j :: 0 <= i < j < |chunks| ==> chunks[i].endOffset <= chunks[j].startOffset)
  }

  lemma {:induction false} ChunksAreSlices(
      t: string, heading: HeadingDetector, ps: seq<RawParagraph>, tokens: Tokenizer, normalize: Normalizer)
    requires IsParagraphing(t, heading, ps)
    ensures AreSlices(t, ChunksOf(t, ps, tokens, normalize), tokens, normalize)
  {
    hide PartsOf, Groups, Scanned, Tiled, IsCutting, Flatten;
    var parts := PartsOf(ps, tokens);
    var groups: seq<seq<Part>> := Groups(t, parts, tokens);
    GroupsCutParts(t, heading, ps, tokens);
    forall i: nat | i < |groups|
      ensures GroupStart(groups[i]) < GroupEnd(groups[i]) <= |t|
    {
      GroupEnds(t, parts, groups, i);
    }
    forall i, j | 0 <= i < j < |groups|
      ensures GroupEnd(groups[i]) <= GroupStart(groups[j])
    {
      GroupsAreOrdered(t, parts, groups, i, j);
    }
  }

  /** Every non-whitespace character of the document lies in some chunk. */
  ghost predicate Covers(t: string, chunks: seq<DocumentChunk>) {
    forall k :: 0 <= k < |t| && !IsSpace(t[k]) ==> InSomeChunk(chunks, k)
  }

  ghost predicate InSomeChunk(chunks: seq<DocumentChunk>, k: nat) {
    exists i :: 0 <= i < |chunks| && chunks[i].startOffset <= k < chunks[i].endOffset
  }

  /** The last part of every chunk keeps its full extent. */
  ghost predicate LastPartsExact(groups: seq<seq<Part>>)
    requires AllNonEmpty(groups)
  {
    forall i :: 0 <= i < |groups| ==> groups[i][|groups[i]| - 1].trueEnd == GroupEnd(groups[i])
  }

  lemma {:induction false} ExactPartsCover(t: string, parts: seq<Part>, groups: seq<seq<Part>>, k: nat) returns (i: nat)
    requires IsCutting(t, parts, groups) && LastPartsExact(groups)
    requires k < |t| && !IsSpace(t[k])
    ensures i < |groups| && GroupStart(groups[i]) <= k < GroupEnd(groups[i])
  {
    hide Cut, IsSpace, PartFits;
    assert k < TrueEndBefore(parts, |parts|);
    var j := FindPart(t, parts, |t|, k, |parts|);
    WholeCut(groups);
    i := FindGroup(groups, j, |groups|);
    GroupEnds(t, parts, groups, i);
    PartInGroup(t, parts, Cut(groups, i), j, Cut(groups, i + 1) - 1);
  }

  lemma {:induction false} WholeCut<T>(groups: seq<seq<T>>)
    ensures Cut(groups, |groups|) == |Flatten(groups)|
  {
    assert groups[..|groups|] == groups;
  }

  lemma {:induction false} PartInGroup(t: string, parts: seq<Part>, a: nat, j: nat, b: nat)
    requires Tiled(t, parts, |t|) && a <= j <= b < |parts|
    ensures parts[a].raw.startOffset <= parts[j].raw.startOffset && parts[j].trueEnd <= parts[b].trueEnd
  {
    hide IsSpace;
    assert PartFits(t, parts, a) && PartFits(t, parts, j) && PartFits(t, parts, b);
    if a < j { PartsAreOrdered(t, parts, |t|, a, j); }
    if j < b { PartsAreOrdered(t, parts, |t|, j, b); }
  }

  /** A chunk whose last part is cut short loses that part's last character. */
  lemma {:induction false} InexactPartLosesText(
      t: string, parts: seq<Part>, groups: seq<seq<Part>>, i: nat) returns (k: nat)
    requires IsCutting(t, parts, groups) && i < |groups|
    requires groups[i] != [] && groups[i][|groups[i]| - 1].trueEnd != GroupEnd(groups[i])
    ensures k < |t| && !IsSpace(t[k])
    ensures forall j :: 0 <= j < |groups| ==> groups[j] != [] && !(GroupStart(groups[j]) <= k < GroupEnd(groups[j]))
  {
    hide Cut, IsSpace, Tiled;
    GroupEnds(t, parts, groups, i);
    k := groups[i][|groups[i]| - 1].trueEnd - 1;
    forall j | 0 <= j < |groups|
      ensures groups[j] != [] && !(GroupStart(groups[j]) <= k < GroupEnd(groups[j]))
    {
      GroupEnds(t, parts, groups, j);
      if j < i {
        GroupsAreOrdered(t, parts, groups, j, i);
      } else if i < j {
        GroupsAreOrdered(t, parts, groups, i, j);
      }
    }
  }

  /** For one tokenizer: nothing is lost exactly when every chunk ends where its last sentence really ends. */
  lemma {:induction false} CoverageForOneTokenizer(
      t: string, heading: HeadingDetector, ps: seq<RawParagraph>, tokens: Tokenizer, normalize: Normalizer)
    requires IsParagraphing(t, heading, ps)
    ensures Covers(t, ChunksOf(t, ps, tokens, normalize)) <==> LastPartsExact(Groups(t, PartsOf(ps, tokens), tokens))
  {
    hide PartsOf, Groups, Scanned, IsCutting, IsSpace, ChunkOf;
    var parts := PartsOf(ps, tokens);
    var groups: seq<seq<Part>> := Groups(t, parts, tokens);
    var chunks := ChunksOf(t, ps, tokens, normalize);
    GroupsCutParts(t, heading, ps, tokens);
    forall i | 0 <= i < |chunks|
      ensures chunks[i].startOffset == GroupStart(groups[i]) && chunks[i].endOffset == GroupEnd(groups[i])
    {
      ChunkExtent(t, groups[i], i, tokens, normalize);
    }
    if LastPartsExact(groups) {
      forall k | 0 <= k < |t| && !IsSpace(t[k])
        ensures InSomeChunk(chunks, k)
      {
        var i := ExactPartsCover(t, parts, groups, k);
      }
    } else {
      var i :| 0 <= i < |groups| && groups[i][|groups[i]| - 1].trueEnd != GroupEnd(groups[i]);
      var k := InexactPartLosesText(t, parts, groups, i);
      assert !InSomeChunk(chunks, k);
    }
  }

  lemma {:induction false} ChunkExtent(t: string, g: seq<Part>, index: nat, tokens: Tokenizer, normalize: Normalizer)
    requires g != []
    ensures ChunkOf(t, g, index, tokens, normalize).startOffset == GroupStart(g)
    ensures ChunkOf(t, g, index, tokens, normalize).endOffset == GroupEnd(g)
  {
  }

  // ----- when no text is lost -----

  /** A sentence mark followed by two whitespace characters: a gap that joining by one space shortens. */
  ghost predicate HasWideSentenceGap(text: string) {
    exists k: nat :: IsWideGapAt(text, k)
  }

  ghost predicate IsWideGapAt(text: string, k: nat) {
    && 0 < k && k + 1 < |text|
    && (text[k - 1] == '.' || text[k - 1] == '!' || text[k - 1] == '?') && IsSpace(text[k]) && IsSpace(text[k + 1])
  }

  lemma {:induction false} GapsAreNarrow(text: string, ps: seq<Piece>, i: nat)
    requires IsSentenceSplit(text, 0, ps) && 0 < i < |ps| && !HasWideSentenceGap(text)
    ensures ps[i].start == ps[i - 1].end + 1
  {
    hide IsSpace;
    assert PieceFits(text, ps, i) && PieceFits(text, ps, i - 1);
    var k := ps[i - 1].end;
    assert IsBoundary(text, k) && k > 0;
    assert !IsWideGapAt(text, k);
  }

  /** Conversely, a wide gap lies between two of the sentences. */
  lemma {:induction false} WideGapIsBetweenSentences(text: string, ps: seq<Piece>)
    requires IsSentenceSplit(text, 0, ps) && HasWideSentenceGap(text)
    ensures !NarrowGaps(ps, 0, |ps|)
  {
    hide IsSpace;
    var k: nat :| IsWideGapAt(text, k);
    var i := FindGap(text, ps, k, |ps|);
    assert PieceFits(text, ps, i) && PieceFits(text, ps, i - 1);
    assert k + 1 != ps[i].start;
  }

  lemma {:induction false} FindGap(text: string, ps: seq<Piece>, k: nat, n: nat) returns (i: nat)
    requires IsSentenceSplit(text, 0, ps) && 0 < n <= |ps|
    requires k < |text| && IsBoundary(text, k) && k < ps[n - 1].end
    ensures 0 < i < n && ps[i - 1].end <= k < ps[i].start
  {
    hide IsSpace, IsBoundary;
    assert PieceFits(text, ps, n - 1);
    assert k < ps[n - 1].start;
    if n == 1 || ps[n - 2].end <= k {
      i := n - 1;
    } else {
      i := FindGap(text, ps, k, n - 1);
    }
  }

  ghost predicate AllExact(parts: seq<Part>) {
    forall i :: 0 <= i < |parts| ==> parts[i].raw.endOffset == parts[i].trueEnd
  }

  lemma {:induction false} SentencePartsExact(t: string, p: RawParagraph, tokens: Tokenizer)
    requires IsBlock(t, p) && !HasWideSentenceGap(p.text)
    ensures AllExact(SentenceParts(p, tokens))
  {
    hide IsSpace, IsBoundary, PackFrom, PiecesFrom, BucketPart, HasWideSentenceGap;
    var ps := PiecesFrom(p.text, 0);
    PiecesAreSentences(p.text, 0);
    forall b | b in PackFrom(p.text, ps, 0, 1, tokens)
      ensures BucketPart(p, ps, b).raw.endOffset == BucketPart(p, ps, b).trueEnd
    {
      forall i | b.first < i < b.next
        ensures ps[i].start == ps[i - 1].end + 1
      {
        GapsAreNarrow(p.text, ps, i);
      }
      BucketPartFits(t, p, ps, b);
    }
  }

  lemma {:induction false} PartsExact(t: string, ps: seq<RawParagraph>, tokens: Tokenizer)
    requires forall i :: 0 <= i < |ps| ==> IsBlock(t, ps[i])
    requires forall i :: 0 <= i < |ps| && tokens(ps[i].text) > CHUNK_MAX_TOKENS ==> !HasWideSentenceGap(ps[i].text)
    ensures AllExact(PartsOf(ps, tokens))
  {
    hide IsBlock, HasWideSentenceGap, SentenceParts;
    if ps != [] {
      PartsExact(t, ps[..|ps| - 1], tokens);
      var p := ps[|ps| - 1];
      if tokens(p.text) > CHUNK_MAX_TOKENS {
        SentencePartsExact(t, p, tokens);
      }
    }
  }

  /** No text is lost as long as every paragraph over the ceiling separates its sentences by single characters. */
  lemma {:induction false} NothingIsLostWithoutWideGaps(
      t: string, heading: HeadingDetector, ps: seq<RawParagraph>, tokens: Tokenizer, normalize: Normalizer)
    requires IsParagraphing(t, heading, ps)
    requires forall i :: 0 <= i < |ps| && tokens(ps[i].text) > CHUNK_MAX_TOKENS ==> !HasWideSentenceGap(ps[i].text)
    ensures Covers(t, ChunksOf(t, ps, tokens, normalize))
  {
    hide IsBlock, HasWideSentenceGap, PartsOf, Groups, Covers, ChunksOf, Tiled;
    var parts := PartsOf(ps, tokens);
    var groups: seq<seq<Part>> := Groups(t, parts, tokens);
    forall i | 0 <= i < |ps|
      ensures IsBlock(t, ps[i])
    {
      assert ParagraphFits(t, heading, ps, i);
    }
    PartsExact(t, ps, tokens);
    GroupsCutParts(t, heading, ps, tokens);
    forall i: nat | i < |groups|
      ensures groups[i][|groups[i]| - 1].trueEnd == GroupEnd(groups[i])
    {
      GroupEnds(t, parts, groups, i);
    }
    CoverageForOneTokenizer(t, heading, ps, tokens, normalize);
  }

  /** A tokenizer under which `text` is over the ceiling and everything else just over the target. */
  function TightTokenizer(text: string): string -> nat {
    s => if s == text then CHUNK_MAX_TOKENS + 1 else CHUNK_TARGET_TOKENS + 1
  }

  /** With that tokenizer all sentences of a paragraph with a wide gap end up in one bucket. */
  lemma {:induction false} OneBucket(text: string, ps: seq<Piece>, next: nat)
    requires IsSentenceSplit(text, 0, ps) && HasWideSentenceGap(text) && 0 < next <= |ps|
    ensures PackFrom(text, ps, 0, next, TightTokenizer(text)) == [Bucket(0, |ps|)]
    decreases |ps| - next
  {
    hide IsSpace, IsBoundary, BucketText, HasWideSentenceGap;
    if next < |ps| {
      BucketTextLength(text, 0, ps, 0, next + 1);
      assert PieceFits(text, ps, next);
      WideGapIsBetweenSentences(text, ps);
      if next + 1 < |ps| {
        assert PieceFits(text, ps, next + 1);
      }
      assert BucketText(text, ps, 0, next + 1) != text;
      OneBucket(text, ps, next + 1);
    }
  }

  lemma {:induction false} WideGapLosesText(
      t: string, heading: HeadingDetector, ps: seq<RawParagraph>, n: nat, normalize: Normalizer)
    requires IsParagraphing(t, heading, ps) && n < |ps| && HasWideSentenceGap(ps[n].text)
    ensures !Covers(t, ChunksOf(t, ps, TightTokenizer(ps[n].text), normalize))
  {
    hide IsBlock, HasWideSentenceGap, PartsOf, Groups, Covers, ChunksOf, Tiled, TightTokenizer, Cut;
    var tokens := TightTokenizer(ps[n].text);
    var parts := PartsOf(ps, tokens);
    var groups: seq<seq<Part>> := Groups(t, parts, tokens);
    assert ParagraphFits(t, heading, ps, n);
    var j := InexactPart(t, ps, n, tokens);
    GroupsCutParts(t, heading, ps, tokens);
    WholeCut(groups);
    var i := FindGroup(groups, j, |groups|);
    GroupEnds(t, parts, groups, i);
    TightGroupsAreSingletons(t, parts, ps[n].text, i);
    GroupIsSlice(groups, i);
    CoverageForOneTokenizer(t, heading, ps, tokens, normalize);
  }

  lemma {:induction false} InexactPart(t: string, ps: seq<RawParagraph>, n: nat, tokens: Tokenizer) returns (j: nat)
    requires n < |ps| && IsBlock(t, ps[n]) && HasWideSentenceGap(ps[n].text) && tokens == TightTokenizer(ps[n].text)
    ensures j < |PartsOf(ps, tokens)| && PartsOf(ps, tokens)[j].raw.endOffset != PartsOf(ps, tokens)[j].trueEnd
  {
    hide IsSpace, IsBoundary, BucketText, HasWideSentenceGap, PiecesFrom, PackFrom;
    if n < |ps| - 1 {
      j := InexactPart(t, ps[..|ps| - 1], n, tokens);
    } else {
      var p := ps[n];
      var pieces := PiecesFrom(p.text, 0);
      PiecesAreSentences(p.text, 0);
      OneBucket(p.text, pieces, 1);
      WideGapIsBetweenSentences(p.text, pieces);
      BucketPartFits(t, p, pieces, Bucket(0, |pieces|));
      j := |PartsOf(ps[..|ps| - 1], tokens)|;
    }
  }

  lemma {:induction false} TightGroupsAreSingletons(t: string, parts: seq<Part>, text: string, i: nat)
    requires i < |Groups(t, parts, TightTokenizer(text))|
    ensures |Groups(t, parts, TightTokenizer(text))[i]| == 1
  {
    var tokens := TightTokenizer(text);
    var groups := Greedy(parts, Weight(tokens));
    GreedyIsGrouping(parts, Weight(tokens));
    var g := groups[i];
    assert g in groups;
    if |g| > 1 {
      HeavyGroupIsInadmissible(g, Weight(tokens));
    }
  }

  lemma {:induction false} HeavyGroupIsInadmissible(g: seq<Part>, weight: Part -> nat)
    requires |g| > 1 && weight(g[0]) > CHUNK_TARGET_TOKENS
    ensures !Admissible(g, weight)
  {
    TotalOfPrefix(g, 1, weight);
    TotalStep(g, 0, weight);
  }

  /** Joined by one space, the sentences of a paragraph stay within the ceiling. */
  ghost predicate JoinedFits(text: string, ps: seq<Piece>, tokens: Tokenizer) {
    forall n :: 0 < n <= |ps| ==> tokens(BucketText(text, ps, 0, n)) <= CHUNK_MAX_TOKENS
  }

  /** All sentences of a paragraph end up in one bucket when joining them by one space brings them under the ceiling. */
  lemma {:induction false} OneBucketWhenJoinedFits(text: string, ps: seq<Piece>, next: nat, tokens: Tokenizer)
    requires 0 < next <= |ps| && JoinedFits(text, ps, tokens)
    ensures PackFrom(text, ps, 0, next, tokens) == [Bucket(0, |ps|)]
    decreases |ps| - next
  {
    hide BucketText;
    if next < |ps| {
      OneBucketWhenJoinedFits(text, ps, next + 1, tokens);
    }
  }

  /** Under any tokenizer: a document of one paragraph over the ceiling that joining brings under it loses its end. */
  lemma {:induction false} JoiningLosesText(
      t: string, heading: HeadingDetector, ps: seq<RawParagraph>, tokens: Tokenizer, normalize: Normalizer)
    requires IsParagraphing(t, heading, ps) && |ps| == 1
    requires tokens(ps[0].text) > CHUNK_MAX_TOKENS && HasWideSentenceGap(ps[0].text)
    requires JoinedFits(ps[0].text, PiecesFrom(ps[0].text, 0), tokens)
    ensures !Covers(t, ChunksOf(t, ps, tokens, normalize))
  {
    hide IsBoundary, IsSpace, BucketText, HasWideSentenceGap, PiecesFrom, PackFrom, Covers, ChunksOf, HasBlankLine;
    hide JoinedFits, NarrowGaps;
    var p := ps[0];
    var pieces := PiecesFrom(p.text, 0);
    assert ParagraphFits(t, heading, ps, 0);
    PiecesAreSentences(p.text, 0);
    OneBucketWhenJoinedFits(p.text, pieces, 1, tokens);
    WideGapIsBetweenSentences(p.text, pieces);
    BucketPartFits(t, p, pieces, Bucket(0, |pieces|));
    var part := BucketPart(p, pieces, Bucket(0, |pieces|));
    assert ps[..0] == [];
    assert PartsOf(ps, tokens) == [part];
    OnePartOneGroup(t, part, tokens);
    var groups: seq<seq<Part>> := [[part]];
    assert groups[0][|groups[0]| - 1].trueEnd != GroupEnd(groups[0]);
    CoverageForOneTokenizer(t, heading, ps, tokens, normalize);
  }

  lemma {:induction false} OnePartOneGroup(t: string, part: Part, tokens: Tokenizer)
    ensures Groups(t, [part], tokens) == [[part]]
  {
    assert Take([part], 1, Weight(tokens)) == 1;
    assert [part][..1] == [part] && [part][1..] == [];
    assert Greedy([part], Weight(tokens)) == [[part]] + Greedy([part][1..], Weight(tokens));
  }

  /** For a tokenizer that counts characters this befalls every paragraph of 1201 characters with a wide gap in it. */
  lemma {:induction false} CountingCharactersLosesText(
      t: string, heading: HeadingDetector, ps: seq<RawParagraph>, normalize: Normalizer)
    requires IsParagraphing(t, heading, ps) && |ps| == 1
    requires |ps[0].text| == CHUNK_MAX_TOKENS + 1 && HasWideSentenceGap(ps[0].text)
    ensures !Covers(t, ChunksOf(t, ps, s => |s|, normalize))
  {
    hide IsBoundary, IsSpace, BucketText, HasWideSentenceGap, PiecesFrom, Covers, ChunksOf, HasBlankLine, NarrowGaps;
    var text := ps[0].text;
    var pieces := PiecesFrom(text, 0);
    assert ParagraphFits(t, heading, ps, 0);
    PiecesAreSentences(text, 0);
    WideGapIsBetweenSentences(text, pieces);
    forall n | 0 < n <= |pieces|
      ensures |BucketText(text, pieces, 0, n)| <= CHUNK_MAX_TOKENS
    {
      BucketTextLength(text, 0, pieces, 0, n);
      assert PieceFits(text, pieces, n - 1);
      if n < |pieces| {
        assert PieceFits(text, pieces, n);
      }
    }
    JoiningLosesText(t, heading, ps, s => |s|, normalize);
  }

  /** 1197 letters, a full stop, two spaces and a last letter. */
  function LosingText(): string {
    seq(1197, _ => 'a') + ".  b"
  }

  /** Such documents exist. */
  lemma {:induction false} LosingTextIsLost(heading: HeadingDetector, normalize: Normalizer) returns (ps: seq<RawParagraph>)
    ensures IsParagraphing(LosingText(), heading, ps) && !Covers(LosingText(), ChunksOf(LosingText(), ps, s => |s|, normalize))
  {
    hide Covers, ChunksOf, HeadingAfter;
    var t := LosingText();
    ps := [RawParagraph(t, 0, |t|, HeadingAfter(heading, t, None))];
    LosingTextShape();
    assert ParagraphFits(t, heading, ps, 0);
    CountingCharactersLosesText(t, heading, ps, normalize);
  }

  lemma {:induction false} LosingTextShape()
    ensures var t := LosingText();
            |t| == CHUNK_MAX_TOKENS + 1 && IsTrimmedText(t) && HasWideSentenceGap(t) && !HasBlankLine(t, 0, |t|)
  {
    var t := LosingText();
    assert t[0] == 'a' && t[1197] == '.' && t[1198] == ' ' && t[1199] == ' ' && t[1200] == 'b';
    assert forall k :: 0 <= k < |t| ==> t[k] != '\n';
    assert IsWideGapAt(t, 1198);
  }

  /**
    * Exactly when the chunker is lossless: whatever the tokenizer, every non-whitespace character lies in a chunk,
    * if and only if no paragraph has two whitespace characters in a row after a sentence mark.
    */
  lemma {:induction false} LosslessForEveryTokenizer(
      t: string, heading: HeadingDetector, ps: seq<RawParagraph>, normalize: Normalizer)
    requires IsParagraphing(t, heading, ps)
    ensures (forall tokens: Tokenizer :: Covers(t, ChunksOf(t, ps, tokens, normalize)))
            <==> (forall i :: 0 <= i < |ps| ==> !HasWideSentenceGap(ps[i].text))
  {
    hide HasWideSentenceGap, Covers, ChunksOf, Scanned;
    if forall i :: 0 <= i < |ps| ==> !HasWideSentenceGap(ps[i].text) {
      forall tokens: Tokenizer
        ensures Covers(t, ChunksOf(t, ps, tokens, normalize))
      {
        NothingIsLostWithoutWideGaps(t, heading, ps, tokens, normalize);
      }
    } else {
      var n :| 0 <= n < |ps| && HasWideSentenceGap(ps[n].text);
      WideGapLosesText(t, heading, ps, n, normalize);
      assert !Covers(t, ChunksOf(t, ps, TightTokenizer(ps[n].text), normalize));
    }
  }

  // ----- headings and size -----

  /** Once an article heading has been seen, every later part carries one. */
  ghost predicate HeadingsStick(parts: seq<Part>) {
    forall i, j :: 0 <= i < j < |parts| && parts[j].raw.headingContext.None? ==> parts[i].raw.headingContext.None?
  }

  lemma {:induction false} HeadingsStickWhenAppended(parts: seq<Part>, more: seq<Part>, h: Option<string>)
    requires HeadingsStick(parts) && forall i :: 0 <= i < |more| ==> more[i].raw.headingContext == h
    requires h.None? && parts != [] ==> parts[|parts| - 1].raw.headingContext.None?
    ensures HeadingsStick(parts + more)
  {
  }

  lemma {:induction false} ParagraphPartsHeading(t: string, p: RawParagraph, tokens: Tokenizer)
    requires IsBlock(t, p)
    ensures ParagraphParts(p, tokens) != []
    ensures forall i :: 0 <= i < |ParagraphParts(p, tokens)| ==>
              ParagraphParts(p, tokens)[i].raw.headingContext == p.headingContext
  {
    hide ParagraphParts, IsBlock, BlankBetween;
    ParagraphPartsTile(t, p, tokens);
    assert forall i :: 0 <= i < |ParagraphParts(p, tokens)| ==> PartWithin(t, p, ParagraphParts(p, tokens)[i]);
  }

  lemma {:induction false} HeadingPersists(t: string, heading: HeadingDetector, ps: seq<RawParagraph>, upTo: nat)
    requires upTo <= |t| && Scanned(t, heading, ps, upTo) && |ps| > 1
    ensures ps[|ps| - 1].headingContext.None? ==> ps[|ps| - 2].headingContext.None?
  {
    hide IsBlock, Blank, HasTwoLineFeeds;
    assert ParagraphFits(t, heading, ps, |ps| - 1);
  }

  lemma {:induction false} HeadingsOfParts(
      t: string, heading: HeadingDetector, ps: seq<RawParagraph>, tokens: Tokenizer, upTo: nat)
    requires upTo <= |t| && Scanned(t, heading, ps, upTo)
    ensures var parts := PartsOf(ps, tokens);
            HeadingsStick(parts) &&
            if ps == [] then parts == []
            else parts != [] && parts[|parts| - 1].raw.headingContext == ps[|ps| - 1].headingContext
  {
    hide ParagraphParts, ParagraphFits, HeadingsStick, Blank;
    if ps != [] {
      var front, p := ps[..|ps| - 1], ps[|ps| - 1];
      ScannedFront(t, heading, ps, upTo);
      LastIsBlock(t, heading, ps, upTo);
      HeadingsOfParts(t, heading, front, tokens, p.startOffset);
      ParagraphPartsHeading(t, p, tokens);
      if |ps| > 1 {
        HeadingPersists(t, heading, ps, upTo);
      }
      HeadingsStickWhenAppended(PartsOf(front, tokens), ParagraphParts(p, tokens), p.headingContext);
    } else {
      NoHeadings();
    }
  }

  lemma {:induction false} NoHeadings()
    ensures HeadingsStick([])
  {
  }

  lemma {:induction false} LastIsBlock(t: string, heading: HeadingDetector, ps: seq<RawParagraph>, upTo: nat)
    requires upTo <= |t| && Scanned(t, heading, ps, upTo) && ps != []
    ensures IsBlock(t, ps[|ps| - 1]) && ps[|ps| - 1].startOffset <= |t|
  {
    hide HasBlankLine, IsSpace;
    assert ParagraphFits(t, heading, ps, |ps| - 1);
  }

  /** The fallback `last.headingContext ?? prev.headingContext` of the merge is never taken. */
  lemma {:induction false} MergeKeepsLastHeading(
      t: string, heading: HeadingDetector, ps: seq<RawParagraph>, tokens: Tokenizer)
    requires IsParagraphing(t, heading, ps)
    requires |Greedy(PartsOf(ps, tokens), Weight(tokens))| >= 2
    ensures var groups := Greedy(PartsOf(ps, tokens), Weight(tokens));
            var prev, last := groups[|groups| - 2], groups[|groups| - 1];
            prev != [] && last != []
            && (last[|last| - 1].raw.headingContext.None? ==> prev[|prev| - 1].raw.headingContext.None?)
  {
    hide PartsOf, Greedy, Tiled, Scanned, Cut;
    var parts := PartsOf(ps, tokens);
    var groups := Greedy(parts, Weight(tokens));
    HeadingsOfParts(t, heading, ps, tokens, |t|);
    PartsAreTiled(t, heading, ps, tokens, |t|);
    GreedyIsGrouping(parts, Weight(tokens));
    GreedyGroupsNonEmpty(parts, Weight(tokens));
    GroupEnds(t, parts, groups, |groups| - 2);
    GroupEnds(t, parts, groups, |groups| - 1);
  }

  /** `part` lies in paragraph `p` and carries its heading. */
  ghost predicate BelongsTo(part: Part, p: RawParagraph) {
    p.startOffset <= part.raw.startOffset && part.trueEnd <= p.endOffset && part.raw.headingContext == p.headingContext
  }

  lemma {:induction false} TilesAreOrdered(t: string, p: RawParagraph, parts: seq<Part>, i: nat, j: nat)
    requires TilesParagraph(t, p, parts) && i <= j < |parts|
    ensures parts[i].raw.startOffset <= parts[j].raw.startOffset && parts[i].trueEnd <= parts[j].trueEnd
    decreases j - i
  {
    hide IsSpace, Blank;
    if i < j {
      TilesAreOrdered(t, p, parts, i, j - 1);
      assert BlankBetween(t, parts[j - 1], parts[j]) && PartWithin(t, p, parts[j - 1]) && PartWithin(t, p, parts[j]);
    }
  }

  lemma {:induction false} ParagraphOfPart(
      t: string, heading: HeadingDetector, ps: seq<RawParagraph>, tokens: Tokenizer, upTo: nat, j: nat) returns (n: nat)
    requires upTo <= |t| && Scanned(t, heading, ps, upTo) && j < |PartsOf(ps, tokens)|
    ensures n < |ps| && BelongsTo(PartsOf(ps, tokens)[j], ps[n])
  {
    hide IsSpace, ParagraphParts, TilesParagraph, IsBlock;
    var front, p := ps[..|ps| - 1], ps[|ps| - 1];
    ScannedFront(t, heading, ps, upTo);
    LastIsBlock(t, heading, ps, upTo);
    var before := |PartsOf(front, tokens)|;
    if j < before {
      n := ParagraphOfPart(t, heading, front, tokens, p.startOffset, j);
    } else {
      n := |ps| - 1;
      TiledPartBelongs(t, p, tokens, j - before);
    }
  }

  lemma {:induction false} TiledPartBelongs(t: string, p: RawParagraph, tokens: Tokenizer, k: nat)
    requires IsBlock(t, p) && k < |ParagraphParts(p, tokens)|
    ensures BelongsTo(ParagraphParts(p, tokens)[k], p)
  {
    hide IsSpace, ParagraphParts, IsBlock, BlankBetween;
    var parts := ParagraphParts(p, tokens);
    ParagraphPartsTile(t, p, tokens);
    TilesAreOrdered(t, p, parts, 0, k);
    TilesAreOrdered(t, p, parts, k, |parts| - 1);
    assert PartWithin(t, p, parts[k]);
  }

  /** A chunk carries the heading in force at its end: the latest one recognised up to the paragraph in which it ends. */
  lemma {:induction false} ChunkHeadingIsTheLatest(
      t: string, heading: HeadingDetector, ps: seq<RawParagraph>, tokens: Tokenizer, normalize: Normalizer, i: nat)
    returns (n: nat)
    requires IsParagraphing(t, heading, ps) && i < |ChunksOf(t, ps, tokens, normalize)|
    ensures var chunk := ChunksOf(t, ps, tokens, normalize)[i];
            n < |ps| && ps[n].startOffset < chunk.endOffset <= ps[n].endOffset
            && IsLatestHeading(heading, ps, n, chunk.headingContext)
  {
    hide IsSpace, PartsOf, Groups, Scanned, Cut, IsLatestHeading;
    var parts := PartsOf(ps, tokens);
    var groups := Groups(t, parts, tokens);
    GroupsCutParts(t, heading, ps, tokens);
    GroupEnds(t, parts, groups, i);
    n := ParagraphOfPart(t, heading, ps, tokens, |t|, Cut(groups, i + 1) - 1);
    HeadingIsLatest(t, heading, ps, n);
  }

  // ----- the code -----

  /** What `flush` pushes for a non-empty bucket. */
  function FlushedChunk(
      t: string, bucket: seq<RawParagraph>, index: nat, tokens: Tokenizer, normalize: Normalizer): DocumentChunk
    requires bucket != []
  {
    var text := Slice(t, bucket[0].startOffset, bucket[|bucket| - 1].endOffset);
    DocumentChunk(index, text, normalize(text), tokens(text), bucket[0].startOffset, bucket[|bucket| - 1].endOffset,
                  bucket[|bucket| - 1].headingContext)
  }

  lemma {:induction false} FlushedIsChunk(t: string, g: seq<Part>, index: nat, tokens: Tokenizer, normalize: Normalizer)
    requires g != []
    ensures FlushedChunk(t, Raws(g), index, tokens, normalize) == ChunkOf(t, g, index, tokens, normalize)
  {
  }

  ghost predicate AreTrimmed(ps: seq<RawParagraph>) {
    forall i :: 0 <= i < |ps| ==> IsTrimmedText(ps[i].text)
  }

  method SplitOversized(rawParagraphs: seq<RawParagraph>, tokens: Tokenizer) returns (normalized: seq<RawParagraph>)
    requires AreTrimmed(rawParagraphs)
    ensures normalized == Raws(PartsOf(rawParagraphs, tokens))
  {
    normalized := [];
    for i := 0 to |rawParagraphs|
      invariant normalized == Raws(PartsOf(rawParagraphs[..i], tokens))
    {
      var paragraph := rawParagraphs[i];
      assert rawParagraphs[..i + 1][..i] == rawParagraphs[..i];
      RawsAppend(PartsOf(rawParagraphs[..i], tokens), ParagraphParts(paragraph, tokens));
      if tokens(paragraph.text) > CHUNK_MAX_TOKENS {
        var pieces := SplitParagraphIntoSentenceChunks(paragraph, tokens);
        normalized := normalized + pieces;
      } else {
        normalized := normalized + [paragraph];
      }
    }
    assert rawParagraphs[..|rawParagraphs|] == rawParagraphs;
  }

  lemma {:induction false} RawsAppend(xs: seq<Part>, ys: seq<Part>)
    ensures Raws(xs + ys) == Raws(xs) + Raws(ys)
  {
  }

  /** The invariant of the packing loop: `closed` and what is in the open bucket are on the greedy path. */
  ghost predicate OnGreedyPath(parts: seq<Part>, i: nat, closed: seq<seq<Part>>, open: seq<Part>, weight: Part -> nat) {
    && i <= |parts| && AllNonEmpty(closed)
    && (open == [] ==> i == 0 && closed == [])
    && (open != [] ==> Take(open + parts[i..], 1, weight) == Take(open + parts[i..], |open|, weight))
    && closed + Greedy(open + parts[i..], weight) == Greedy(parts, weight)
  }

  lemma {:induction false} GreedyPathStart(parts: seq<Part>, weight: Part -> nat)
    ensures OnGreedyPath(parts, 0, [], [], weight)
  {
    assert [] + parts[0..] == parts;
  }

  lemma {:induction false} GreedyPathCloses(
      parts: seq<Part>, i: nat, closed: seq<seq<Part>>, open: seq<Part>, weight: Part -> nat)
    requires OnGreedyPath(parts, i, closed, open, weight) && i < |parts| && open != []
    requires Total(open, weight) + weight(parts[i]) > CHUNK_TARGET_TOKENS
    ensures OnGreedyPath(parts, i + 1, closed + [open], [parts[i]], weight)
  {
    hide Greedy, Take;
    GreedyStep(open, parts[i..], weight);
    assert parts[i..] == [parts[i]] + parts[i + 1..];
    assert closed + ([open] + Greedy(parts[i..], weight)) == (closed + [open]) + Greedy(parts[i..], weight);
  }

  lemma {:induction false} GreedyPathAdds(
      parts: seq<Part>, i: nat, closed: seq<seq<Part>>, open: seq<Part>, weight: Part -> nat)
    requires OnGreedyPath(parts, i, closed, open, weight) && i < |parts|
    requires open != [] ==> Total(open, weight) + weight(parts[i]) <= CHUNK_TARGET_TOKENS
    ensures OnGreedyPath(parts, i + 1, closed, open + [parts[i]], weight)
  {
    hide Greedy, Take;
    if open != [] {
      GreedyStep(open, parts[i..], weight);
    }
    assert open + parts[i..] == (open + [parts[i]]) + parts[i + 1..];
  }

  lemma {:induction false} GreedyPathEnds(
      parts: seq<Part>, closed: seq<seq<Part>>, open: seq<Part>, weight: Part -> nat)
    requires OnGreedyPath(parts, |parts|, closed, open, weight)
    ensures Greedy(parts, weight) == if open == [] then closed else closed + [open]
  {
    hide Take;
    assert open + parts[|parts|..] == open;
    GreedyOfNothing(weight);
    if open != [] {
      assert open + [] == open;
      GreedyStep(open, [], weight);
    }
  }

  lemma {:induction false} ChunkAppended(
      t: string, closed: seq<seq<Part>>, open: seq<Part>, tokens: Tokenizer, normalize: Normalizer)
    requires AllNonEmpty(closed) && open != []
    ensures AllNonEmpty(closed + [open])
    ensures ChunksOfGroups(t, closed + [open], tokens, normalize)
            == ChunksOfGroups(t, closed, tokens, normalize) + [FlushedChunk(t, Raws(open), |closed|, tokens, normalize)]
  {
    FlushedIsChunk(t, open, |closed|, tokens, normalize);
  }

  method PackGreedily(
      t: string, ghost parts: seq<Part>, paragraphs: seq<RawParagraph>, tokens: Tokenizer, normalize: Normalizer)
    returns (chunks: seq<DocumentChunk>)
    requires paragraphs == Raws(parts)
    ensures AllNonEmpty(Greedy(parts, Weight(tokens)))
    ensures chunks == ChunksOfGroups(t, Greedy(parts, Weight(tokens)), tokens, normalize)
  {
    hide Greedy, OnGreedyPath, ChunkOf, FlushedChunk;
    chunks := [];
    var bucket: seq<RawParagraph> := [];
    var bucketTokens := 0;
    ghost var closed: seq<seq<Part>> := [];
    ghost var open: seq<Part> := [];
    GreedyPathStart(parts, Weight(tokens));
    for i := 0 to |paragraphs|
      invariant bucket == Raws(open) && bucketTokens == Total(open, Weight(tokens))
      invariant OnGreedyPath(parts, i, closed, open, Weight(tokens))
      invariant AllNonEmpty(closed) && chunks == ChunksOfGroups(t, closed, tokens, normalize)
    {
      var paragraph := paragraphs[i];
      var paragraphTokens := tokens(paragraph.text);
      if |bucket| > 0 && bucketTokens + paragraphTokens > CHUNK_TARGET_TOKENS {
        GreedyPathCloses(parts, i, closed, open, Weight(tokens));
        ChunkAppended(t, closed, open, tokens, normalize);
        chunks := chunks + [FlushedChunk(t, bucket, |chunks|, tokens, normalize)];
        closed := closed + [open];
        bucket, bucketTokens, open := [], 0, [];
        assert open + [parts[i]] == [parts[i]];
      } else {
        GreedyPathAdds(parts, i, closed, open, Weight(tokens));
      }
      bucket := bucket + [paragraph];
      bucketTokens := bucketTokens + paragraphTokens;
      TotalStep(open + [parts[i]], |open|, Weight(tokens));
      assert (open + [parts[i]])[..|open|] == open && (open + [parts[i]])[..|open| + 1] == open + [parts[i]];
      open := open + [parts[i]];
    }
    GreedyPathEnds(parts, closed, open, Weight(tokens));
    if |bucket| > 0 {
      ChunkAppended(t, closed, open, tokens, normalize);
      chunks := chunks + [FlushedChunk(t, bucket, |chunks|, tokens, normalize)];
    }
  }

  lemma {:induction false} GreedyOfNothing(weight: Part -> nat)
    ensures Greedy([], weight) == []
  {
  }

  /** The merge of the last two chunks, as the record that replaces them. */
  function MergedChunk(
      t: string, prev: DocumentChunk, last: DocumentChunk, tokens: Tokenizer, normalize: Normalizer): DocumentChunk {
    var text := Slice(t, prev.startOffset, last.endOffset);
    DocumentChunk(prev.chunkIndex, text, normalize(text), tokens(text), prev.startOffset, last.endOffset,
                  if last.headingContext.Some? then last.headingContext else prev.headingContext)
  }

  lemma {:induction false} MergedIsChunkOf(
      t: string, g: seq<Part>, h: seq<Part>, i: nat, tokens: Tokenizer, normalize: Normalizer)
    requires g != [] && h != []
    requires h[|h| - 1].raw.headingContext.None? ==> g[|g| - 1].raw.headingContext.None?
    ensures MergedChunk(t, ChunkOf(t, g, i, tokens, normalize), ChunkOf(t, h, i + 1, tokens, normalize), tokens, normalize)
            == ChunkOf(t, g + h, i, tokens, normalize)
  {
    hide Slice;
    assert (g + h)[0] == g[0] && (g + h)[|g + h| - 1] == h[|h| - 1];
  }

  lemma {:induction false} ChunkTokens(t: string, g: seq<Part>, i: nat, tokens: Tokenizer, normalize: Normalizer)
    requires g != []
    ensures ChunkOf(t, g, i, tokens, normalize).tokenCount == tokens(Slice(t, GroupStart(g), GroupEnd(g)))
  {
  }

  /** Merging the last two chunks gives the chunk of the merged buckets. */
  lemma {:induction false} MergedChunks(
      t: string, groups: seq<seq<Part>>, chunks: seq<DocumentChunk>, tokens: Tokenizer, normalize: Normalizer)
    requires AllNonEmpty(groups) && |groups| >= 2 && chunks == ChunksOfGroups(t, groups, tokens, normalize)
    requires chunks[|chunks| - 1].tokenCount < MIN_STANDALONE_CHUNK_TOKENS
    requires var prev, last := groups[|groups| - 2], groups[|groups| - 1];
             last[|last| - 1].raw.headingContext.None? ==> prev[|prev| - 1].raw.headingContext.None?
    ensures chunks[..|chunks| - 2] + [MergedChunk(t, chunks[|chunks| - 2], chunks[|chunks| - 1], tokens, normalize)]
            == ChunksOfGroups(t, FinalGroups(t, groups, tokens), tokens, normalize)
  {
    hide ChunkOf, MergedChunk, Slice, GroupStart, GroupEnd;
    var n := |groups|;
    ChunkTokens(t, groups[n - 1], n - 1, tokens, normalize);
    MergedIsChunkOf(t, groups[n - 2], groups[n - 1], n - 2, tokens, normalize);
    assert FinalGroups(t, groups, tokens) == groups[..n - 2] + [groups[n - 2] + groups[n - 1]];
  }

  /**
    * `chunkDocumentText`: the paragraphing of the document is unique (ParagraphingIsUnique), so this determines the
    * result for the given tokenizer, normaliser and article-heading recogniser.
    */
  method ChunkDocumentText(
      documentText: string, tokens: Tokenizer, normalize: Normalizer, heading: HeadingDetector)
    returns (chunks: seq<DocumentChunk>)
    ensures exists ps :: IsParagraphing(documentText, heading, ps) && chunks == ChunksOf(documentText, ps, tokens, normalize)
  {
    hide IsSpace, Trim, FinalGroups, Greedy, Scanned, IsBlock, MergedChunk, ChunkOf;
    if Trim(documentText) == "" {
      BlankDocument(documentText, heading, tokens, normalize);
      return [];
    }
    var rawParagraphs := SplitIntoParagraphs(documentText, heading);
    ParagraphsAreTrimmed(documentText, heading, rawParagraphs);
    var normalizedParagraphs := SplitOversized(rawParagraphs, tokens);
    ghost var parts := PartsOf(rawParagraphs, tokens);
    chunks := PackGreedily(documentText, parts, normalizedParagraphs, tokens, normalize);
    ghost var groups := Greedy(parts, Weight(tokens));
    if |chunks| >= 2 {
      var last := chunks[|chunks| - 1];
      MergeKeepsLastHeading(documentText, heading, rawParagraphs, tokens);
      LastChunkTokens(documentText, groups, chunks, tokens, normalize);
      if last.tokenCount < MIN_STANDALONE_CHUNK_TOKENS {
        var prev := chunks[|chunks| - 2];
        MergedChunks(documentText, groups, chunks, tokens, normalize);
        chunks := chunks[..|chunks| - 2] + [MergedChunk(documentText, prev, last, tokens, normalize)];
      }
    } else {
      ShortListIsFinal(documentText, groups, tokens);
    }
    GroupsAreFinal(documentText, parts, tokens);
    chunks := Reindexed(chunks);
    ReindexedIsSame(documentText, Groups(documentText, parts, tokens), tokens, normalize);
  }

  /** `chunks.map((chunk, index) => ({ ...chunk, chunkIndex: index }))`. */
  function Reindexed(chunks: seq<DocumentChunk>): seq<DocumentChunk> {
    seq(|chunks|, i requires 0 <= i < |chunks| => chunks[i].(chunkIndex := i))
  }

  lemma {:induction false} ReindexedIsSame(t: string, groups: seq<seq<Part>>, tokens: Tokenizer, normalize: Normalizer)
    requires AllNonEmpty(groups)
    ensures Reindexed(ChunksOfGroups(t, groups, tokens, normalize)) == ChunksOfGroups(t, groups, tokens, normalize)
  {
  }

  lemma {:induction false} BlankDocument(t: string, heading: HeadingDetector, tokens: Tokenizer, normalize: Normalizer)
    requires Trim(t) == ""
    ensures IsParagraphing(t, heading, []) && ChunksOf(t, [], tokens, normalize) == []
  {
  }

  lemma {:induction false} ParagraphsAreTrimmed(t: string, heading: HeadingDetector, ps: seq<RawParagraph>)
    requires IsParagraphing(t, heading, ps)
    ensures AreTrimmed(ps)
  {
    hide IsSpace, HasBlankLine;
    forall i | 0 <= i < |ps|
      ensures IsTrimmedText(ps[i].text)
    {
      assert ParagraphFits(t, heading, ps, i);
    }
  }

  lemma {:induction false} LastChunkTokens(
      t: string, groups: seq<seq<Part>>, chunks: seq<DocumentChunk>, tokens: Tokenizer, normalize: Normalizer)
    requires AllNonEmpty(groups) && |groups| >= 2 && chunks == ChunksOfGroups(t, groups, tokens, normalize)
    ensures chunks[|chunks| - 1].tokenCount >= MIN_STANDALONE_CHUNK_TOKENS ==> FinalGroups(t, groups, tokens) == groups
  {
    hide ChunkOf, Slice, GroupStart, GroupEnd;
    ChunkTokens(t, groups[|groups| - 1], |groups| - 1, tokens, normalize);
  }

  lemma {:induction false} ShortListIsFinal(t: string, groups: seq<seq<Part>>, tokens: Tokenizer)
    requires AllNonEmpty(groups) && |groups| < 2
    ensures FinalGroups(t, groups, tokens) == groups
  {
  }

  lemma {:induction false} GroupsAreFinal(t: string, parts: seq<Part>, tokens: Tokenizer)
    ensures AllNonEmpty(Greedy(parts, Weight(tokens)))
    ensures Groups(t, parts, tokens) == FinalGroups(t, Greedy(parts, Weight(tokens)), tokens)
  {
    GreedyGroupsNonEmpty(parts, Weight(tokens));
  }

  /**
    * The chunk count: no cutting of the parts into chunks that hold one part or stay within the target is shorter
    * than the packer's, and the merge removes at most one chunk more.
    */
  lemma {:induction false} FewestChunks(
      t: string, ps: seq<RawParagraph>, tokens: Tokenizer, normalize: Normalizer, other: seq<seq<Part>>)
    requires IsGrouping(other, PartsOf(ps, tokens), Weight(tokens))
    ensures IsGrouping(Greedy(PartsOf(ps, tokens), Weight(tokens)), PartsOf(ps, tokens), Weight(tokens))
    ensures |Greedy(PartsOf(ps, tokens), Weight(tokens))| <= |other|
    ensures |ChunksOf(t, ps, tokens, normalize)| <= |other|
    ensures |ChunksOf(t, ps, tokens, normalize)| >= |Greedy(PartsOf(ps, tokens), Weight(tokens))| - 1
  {
    hide PartsOf, Greedy, IsGrouping, ChunkOf;
    GreedyIsGrouping(PartsOf(ps, tokens), Weight(tokens));
    GreedyIsMinimal(PartsOf(ps, tokens), other, Weight(tokens));
  }

  /**
    * What the last chunk weighs: at least 50 tokens if there are others and nothing was merged; otherwise the packer's
    * last chunk weighed less, and the last chunk reaches from the start of the one before to its end.
    */
  lemma {:induction false} LastChunkIsNoScrap(
      t: string, ps: seq<RawParagraph>, tokens: Tokenizer, normalize: Normalizer)
    ensures var groups := Greedy(PartsOf(ps, tokens), Weight(tokens));
            var chunks := ChunksOf(t, ps, tokens, normalize);
            var n := |groups|;
            && AllNonEmpty(groups) && (|chunks| == n || |chunks| == n - 1)
            && (|chunks| == n >= 2 ==> chunks[n - 1].tokenCount >= 50)
            && (|chunks| == n - 1 ==>
                  && n >= 2 && tokens(Slice(t, GroupStart(groups[n - 1]), GroupEnd(groups[n - 1]))) < 50
                  && chunks[n - 2].startOffset == GroupStart(groups[n - 2])
                  && chunks[n - 2].endOffset == GroupEnd(groups[n - 1]))
  {
    hide PartsOf, Greedy, Slice;
    GreedyGroupsNonEmpty(PartsOf(ps, tokens), Weight(tokens));
  }

  /** A paragraph is split into sentences exactly when it alone has more than 1200 tokens. */
  lemma {:induction false} SplitExactlyAboveCeiling(t: string, p: RawParagraph, tokens: Tokenizer)
    requires IsBlock(t, p)
    ensures tokens(p.text) <= 1200 ==> Raws(ParagraphParts(p, tokens)) == [p]
    ensures tokens(p.text) > 1200 ==> ParagraphParts(p, tokens) == SentenceParts(p, tokens)
  {
    hide SentenceParts;
  }
}
