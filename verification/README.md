# Senecial: models and proofs of the domain algorithms

Senecial is a contract-management service. Its `src/domain` directory holds framework-free TypeScript that compares
clauses, cuts contract texts into chunks for retrieval, checks that AI answers cite only evidence that was supplied,
buckets dates by Korean calendar days and months, exports CSV, embeds texts and runs a worker scheduler. This project
models those algorithms in Dafny and proves what they are for.

Code that works step by step (tables, cursors, accumulators, Maps and visited sets) is a `method` with the loops of the
source, proved equal to a specification function or relation; the properties are then lemmas about that specification.
Code made of expressions is functions and lemmas. The scheduler is a transition system whose steps are what runs between
two awaits. Every module is named after the part of the program it models and names its source file.

| module | what it models |
|---|---|
| `JsText`, `Seqs`, `StableSort` | the ECMAScript string and array operations the code relies on: `trim`, `\s`, `split`, `join`, `indexOf`, `String(n)`, stable `sort` |
| `ClauseDiff` | line diff of a clause against a standard clause, and the similarity ratio |
| `ParagraphScanner`, `SentenceSplitter`, `ChunkPacking`, `DocumentChunker` | the four loops of the document chunker |
| `CitationMarker`, `CitationRequired`, `CitationProvision`, `AnswerUsedCitations` | the citation pipeline: marker parser, block-aware validator, identity by provision, selection of used citations |
| `ContextTokenBudget`, `BroadIssueSelection` | evidence packing under a token budget, issue grouping and ranking, the skeleton markers of the prompt |
| `HierarchyValidation` | parent references and cycle check of a clause hierarchy |
| `KstCalendar`, `AnalyticsPeriod` | months and days in KST, month subtraction, period filters, contract status and expiration buckets |
| `Csv` | the CSV writer, with a reader for section 2 of RFC 4180 |
| `HashingTrickEmbedding`, `CosineSimilarity` | the FNV-1a trigram embedding and cosine similarity over ideal reals |
| `NormalizeClauseText` | search normalization of clause text |
| `WorkerScheduler` | one cooperative loop per job and a shutdown signal |

The tokenizer, the prompt builder's token count, the article-heading recogniser, the keyword classifier, lower-casing and
the square root are function parameters, so every theorem holds for all of them (lower-casing and the square root with the
stated assumptions). Every lemma carries `{:induction false}`: the proofs use the recursive calls written in them and no
automatic induction. Numbers read from a text are rounded as ECMAScript rounds them (`JsText.NumberFrom`); where a theorem
prints a position and reads it back, the position is below 2^53, and array lengths are below 2^32.

## Where the code does not do what its documentation says

The model follows the code. In each case the exact condition is proved.

- Joined answers (`answer-used-citations.ts` lines 50-53 say that every marker of the validated text is guaranteed to
  resolve): blocks are validated one by one and then joined, so a conclusion that ends in an unclosed `[출처:1` is closed
  by the next block. An answer can be accepted although the returned text contains a marker for a citation that was never
  supplied (`AcceptedAnswerWithInventedMarker`, `OpenConclusionExists`). For a whole answer
  `AcceptedAnswerHasOnlySuppliedMarkersExactly` gives the exact condition; looking at the conclusion alone it is that it
  does not end inside an opened marker (`OnlySuppliedMarkersExactlyWithoutOpenTail`). What always holds is that the
  citations shown to the user are supplied ones (`GroundedAnswerShowsItsCitations`).
- Embedding sign (`hashing-trick-embedding.ts` lines 65-72 speak of a sign "derived from a different bit" that keeps the
  expected product of unrelated texts at zero): with an even dimension, such as the default of 256, the sign bit is the
  parity of the index, so nothing cancels and no similarity is negative (`SignIsDecidedByIndexExactly`,
  `EvenDimensionNeverOpposes`).
- Status and bucket (`date-buckets.ts` lines 3-8 say that the buckets never disagree with the displayed status): a
  contract that is stored as expired or expiring, as the contract form allows, keeps that status from day 31 on and
  without an end date, while its bucket says otherwise (`StoredStatusDisagrees`); and a hand-set status such as draft
  hides an end date that the bucket shows. `BucketAgreesWithStatusExactly` gives the exact condition.
- Chunk coverage (`document-chunker.ts`): the paragraph scanner drops no content, as its line 62 says, but the sentence
  fallback computes offsets from sentences joined by one space, so a paragraph over the ceiling whose sentences are
  separated by two or more whitespace characters can lose its tail. `LosslessForEveryTokenizer` gives the exact condition.
- Month keys before the year 100: `Date.UTC` reads years 0 to 99 as 1900 to 1999, and a negative year is split at its own
  minus sign, so `monthRangeUtcBounds(monthKeyKst(t))` does not contain `t` (`InstantInRangeOfItsKey`).
- Provision keys: two contract ids can collide when one, followed by `::`, begins the other (`CollisionsExactly`).
  Generated ids (`prisma/schema.prisma` line 355) contain no colon, so it cannot happen with them
  (`KeyIdentifiesProvision`).
- CSV: a row without fields is written as an empty line and read back as one empty field (`CsvRoundTrip`). Distinct
  values can be neutralized to the same text (`NeutralizedValuesCollideExactly`).
- Ties between citations of one provision (`citation-provision.ts` line 26 says "never arbitrary/positional"): of two with
  equal type and score the one that comes first is kept (`TiesGoToTheFirst`); type and score are the same either way
  (`OrderDoesNotMatter`).
- Selected citations (`broad-issue-selection.ts` line 199 says "group-then-score order"): the code does not sort within a
  group; the order is that of the input, which callers sort by score (`GroupsPartition`, `GroupsInScoreOrder`).
- The fallback to the previous chunk's heading in the trailing merge is never taken (`MergeKeepsLastHeading`).

## Model

| member | source | states |
|---|---|---|
| ClauseDiff.SplitLinesRoundTrip | src/domain/clauses/clause-diff.ts:14-19 | every list of trimmed, non-empty lines is what its newline-joined text splits into, so no line is lost, merged or changed |
| ClauseDiff.SplitLinesAreLines | src/domain/clauses/clause-diff.ts:14-19 | every text splits into trimmed, non-empty lines without line feeds, and joining them and splitting again changes nothing |
| ClauseDiff.TextWithoutBreak | src/domain/clauses/clause-diff.ts:14-19 | a text without line feeds is its trimmed self, or no line if nothing is left |
| ClauseDiff.SplitLinesOfConcat | src/domain/clauses/clause-diff.ts:14-19 | two texts that meet at a line feed have the lines of the one followed by those of the other, whatever they contain |
| ClauseDiff.SplitLinesOfCrLf | src/domain/clauses/clause-diff.ts:15 | a carriage return before the line feed, or at the end, makes no difference |
| ClauseDiff.LcsIsUpperBound | src/domain/clauses/clause-diff.ts:30-38 | the number the table's recurrence computes bounds the length of every common subsequence of the two line lists |
| ClauseDiff.FillTable | src/domain/clauses/clause-diff.ts:30-38 | the two descending loops leave in every cell the value of the recurrence for the corresponding suffixes |
| ClauseDiff.EditScriptKeepsBothSides | src/domain/clauses/clause-diff.ts:40-64 | keeping same and removed segments gives the standard's lines in order, keeping same and added gives the clause's |
| ClauseDiff.EditScriptReachesLcs | src/domain/clauses/clause-diff.ts:43-55 | the greedy backtrack keeps exactly as many lines as the recurrence promises |
| ClauseDiff.EditScriptIsOptimal | src/domain/clauses/clause-diff.ts:26-65 | the diff is a script from standard to clause, its same lines are a longest common subsequence, and no script between the two has fewer segments |
| ClauseDiff.EditScriptIsFirst | src/domain/clauses/clause-diff.ts:43-64 | which of the shortest scripts is emitted: where it first differs from another one, it keeps before it removes and removes before it adds |
| ClauseDiff.DiffLineLists | src/domain/clauses/clause-diff.ts:30-64 | the table and the three while loops of the backtrack produce exactly the optimal script |
| ClauseDiff.DiffLines | src/domain/clauses/clause-diff.ts:26-65 | the diff of two texts is the optimal script between their trimmed, non-empty lines, standard first |
| ClauseDiff.ComputeLineSimilarity | src/domain/clauses/clause-diff.ts:68-78 | the counting and the division return the similarity of the two line lists, whose value the lemmas below fix |
| ClauseDiff.SimilarityIsSharedPart | src/domain/clauses/clause-diff.ts:67-78 | for every longest common subsequence and every shortest script between the line lists, the similarity is the shared lines as a part of all lines that occur: similarity times (lines of both minus shared) is shared; 1 for two texts without lines |
| ClauseDiff.SimilarityInUnitInterval | src/domain/clauses/clause-diff.ts:68-78 | the similarity always lies between 0 and 1 |
| ClauseDiff.SimilarityIsSymmetric | src/domain/clauses/clause-diff.ts:68-78 | swapping clause and standard does not change the similarity, although the backtrack prefers removals |
| ClauseDiff.SimilarityIsOneExactlyForEqualLines | src/domain/clauses/clause-diff.ts:67-78 | the similarity is 1 if and only if the line lists are equal |
| ClauseDiff.SimilarityIsZeroExactlyForDisjointLines | src/domain/clauses/clause-diff.ts:67-78 | the similarity is 0 if and only if the texts share no line and are not both empty |
| ParagraphScanner.FindParagraphEnd | src/domain/ai/document-chunker.ts:70-82 | the inner loop stops at the first blank line after the paragraph's own first line, or at the end of the text |
| ParagraphScanner.SplitIntoParagraphs | src/domain/ai/document-chunker.ts:63-105 | the paragraphs are exact slices that start and end in non-whitespace and contain no blank line, a blank line separates neighbours, only whitespace lies outside, and headings follow on from each other |
| ParagraphScanner.ParagraphingIsUnique | src/domain/ai/document-chunker.ts:62-105 | a document has only one such list of paragraphs, so that contract determines the scanner's result |
| ParagraphScanner.HeadingIsLatest | src/domain/ai/document-chunker.ts:89-97 | every paragraph carries what the recogniser returned for the text before the first line feed of the last paragraph up to it for which it returned anything, and none exactly when it never did |
| ParagraphScanner.LatestHeadingIsUnique | src/domain/ai/document-chunker.ts:89-97 | there is only one heading of that description |
| SentenceSplitter.PiecesAreSentences | src/domain/ai/document-chunker.ts:109-117 | the pieces cover the paragraph, contain no sentence boundary and are separated by a whitespace run after a sentence mark |
| SentenceSplitter.SentenceEndsAtMark | src/domain/ai/document-chunker.ts:108-117 | a sentence ends at the first full stop, exclamation or question mark that whitespace follows, or at the end of the paragraph |
| SentenceSplitter.BucketTextIsSlice | src/domain/ai/document-chunker.ts:122-139 | where single spaces separate its sentences, a bucket is the very slice of the paragraph |
| SentenceSplitter.BucketTextLength | src/domain/ai/document-chunker.ts:122-139 | joining sentences by one space never lengthens the text, and keeps its length exactly when every gap is one character wide, which is when the computed end offset is right |
| SentenceSplitter.PackFromIsBucketing | src/domain/ai/document-chunker.ts:119-144 | the buckets cover all sentences in order without overlap |
| SentenceSplitter.PackFromIsGreedy | src/domain/ai/document-chunker.ts:122-136 | a bucket of several sentences stays within the ceiling, and no bucket could have taken the next sentence too |
| SentenceSplitter.SplitParagraphIntoSentenceChunks | src/domain/ai/document-chunker.ts:108-146 | the loop over the pieces returns exactly those buckets, each with the text and offsets the code computes for it |
| ChunkPacking.TakeIsLongest | src/domain/ai/document-chunker.ts:194-201 | the open bucket takes at least as many leading paragraphs as any admissible chunk could |
| ChunkPacking.GreedyIsGrouping | src/domain/ai/document-chunker.ts:194-202 | the buckets cut the paragraphs into consecutive chunks, each one paragraph or within the target of 600 tokens |
| ChunkPacking.GreedyIsMinimal | src/domain/ai/document-chunker.ts:194-202 | no cutting of the paragraphs into such chunks has fewer of them |
| ChunkPacking.GreedyClosesOnlyWhenFull | src/domain/ai/document-chunker.ts:194-202 | a chunk is closed only when the next paragraph would take it over 600 tokens |
| ChunkPacking.PackingIsUnique | src/domain/ai/document-chunker.ts:194-202 | the packing is the only cutting of the paragraphs with that property whose chunks are single paragraphs or within 600 tokens |
| DocumentChunker.SplitOversized | src/domain/ai/document-chunker.ts:158-166 | paragraphs over the ceiling are replaced by their sentence buckets, all others stay |
| DocumentChunker.SplitExactlyAboveCeiling | src/domain/ai/document-chunker.ts:158-166 | a paragraph is split into sentences exactly when it alone has more than 1200 tokens |
| DocumentChunker.PackGreedily | src/domain/ai/document-chunker.ts:168-202 | the flush and packing loop emits one chunk per greedy bucket, from its first start to its last end |
| DocumentChunker.PartsAreTiled | src/domain/ai/document-chunker.ts:157-166 | what reaches the packer tiles the document up to whitespace: ordered, disjoint, nothing else between |
| DocumentChunker.ChunksAreSlices | src/domain/ai/document-chunker.ts:172-226 | chunks are numbered from 0, each is the exact non-empty document slice of its offsets with its own token count, and they never overlap, also after the merge |
| DocumentChunker.CoverageForOneTokenizer | src/domain/ai/document-chunker.ts:107-226 | for a given tokenizer every non-whitespace character lies in a chunk exactly when every chunk ends where its last sentence really ends |
| DocumentChunker.NothingIsLostWithoutWideGaps | src/domain/ai/document-chunker.ts:107-226 | no text is lost when the paragraphs over the ceiling separate their sentences by single characters |
| DocumentChunker.WideGapLosesText | src/domain/ai/document-chunker.ts:122-139 | for any paragraph of any document with a wider gap there is a tokenizer under which text is lost |
| DocumentChunker.JoiningLosesText | src/domain/ai/document-chunker.ts:122-139 | under any tokenizer, a one-paragraph document over the ceiling with a wide gap loses its end when joining its sentences by one space brings them under the ceiling |
| DocumentChunker.CountingCharactersLosesText | src/domain/ai/document-chunker.ts:122-139 | for a tokenizer that counts characters this befalls every paragraph of 1201 characters with a wide gap |
| DocumentChunker.LosingTextIsLost | src/domain/ai/document-chunker.ts:107-146 | a concrete document of that kind, for every heading recogniser |
| DocumentChunker.LosslessForEveryTokenizer | src/domain/ai/document-chunker.ts:62-226 | the chunker loses no text under any tokenizer if and only if no paragraph has two whitespace characters in a row after a sentence mark |
| DocumentChunker.ChunkHeadingIsTheLatest | src/domain/ai/document-chunker.ts:89-221 | a chunk carries the heading recognised last up to the paragraph in which the chunk ends, and none exactly when nothing was recognised up to there |
| DocumentChunker.MergeKeepsLastHeading | src/domain/ai/document-chunker.ts:207-221 | when the last chunk has no heading, neither has the one before, so the fallback of the merge is never taken |
| DocumentChunker.MergedChunks | src/domain/ai/document-chunker.ts:207-222 | splicing the last two chunks gives the chunk of their joined buckets |
| DocumentChunker.LastChunkIsNoScrap | src/domain/ai/document-chunker.ts:204-223 | the last of several chunks weighs at least 50 tokens unless it is the product of a merge, and then what was merged into the chunk before it weighed less |
| DocumentChunker.FewestChunks | src/domain/ai/document-chunker.ts:168-223 | no admissible cutting is shorter than the packer's, the result is no longer than any, and the merge removes at most one chunk |
| DocumentChunker.ChunkDocumentText | src/domain/ai/document-chunker.ts:153-226 | the whole function returns the chunks of the document's one paragraphing, to which all the chunk theorems apply |
| CitationMarker.FindCitationMarkers | src/domain/ai/citation-marker.ts:44-52 | the scan that resumes after each match finds the indexes of the matches at every position of the text, so resuming misses none |
| CitationMarker.MatchesExactly | src/domain/ai/citation-marker.ts:27 | a position matches exactly when a bracket with a non-empty list of digits, commas and whitespace is written there |
| CitationMarker.PieceExactly | src/domain/ai/citation-marker.ts:34-41 | a list piece denotes an index exactly when it is digits between any whitespace that make a finite positive number; otherwise nothing |
| CitationMarker.MarkerInText | src/domain/ai/citation-marker.ts:27-52 | a written marker contributes the indexes of its list to those of the texts before and after it, whatever these are |
| CitationMarker.NoMarkerWritten | src/domain/ai/citation-marker.ts:27-52 | a text in which no marker is written has none |
| CitationMarker.MarkersOfConcat | src/domain/ai/citation-marker.ts:27-52 | concatenating two texts keeps the markers of both and adds those of at most one marker opened in the first and closed in the second |
| CitationMarker.NewMatchExactly | src/domain/ai/citation-marker.ts:27-52 | a paragraph break is bridged by a marker exactly when the paragraph ends inside an opened list and the leading list characters of what follows are followed by a closing bracket |
| CitationMarker.JoinIsSafeWithoutOpenTail | src/domain/ai/citation-marker.ts:27-52 | a paragraph can be followed by any text without marker change if and only if it does not end inside an opened marker |
| CitationMarker.OpenTailCloses | src/domain/ai/citation-marker.ts:27-52 | an opened marker at a paragraph's end is completed by a following `,k]`, which adds the index k |
| CitationMarker.MarkerRoundTrip | src/domain/ai/citation-marker.ts:22-52 | printed markers between arbitrary text fragments are found in order among the fragments' own markers |
| CitationMarker.MarkerRoundTripInPlainText | src/domain/ai/citation-marker.ts:22-52 | between marker-free fragments exactly the printed indexes are found |
| CitationMarker.ParseListBody | src/domain/ai/citation-marker.ts:34-41 | a comma-separated list of positive decimals is parsed back to its numbers |
| CitationMarker.CombinedBracketEqualsSideBySide | src/domain/ai/citation-marker.ts:26-52 | one bracket with several indexes means the same as one marker for each |
| CitationMarker.JoinKeepsMarkers | src/domain/ai/citation-required.ts:180-184 | joining paragraphs loses no marker of any of them |
| CitationMarker.JoinOfClosedBlocks | src/domain/ai/citation-required.ts:180-184 | without open tails the joined text has exactly the markers of its paragraphs |
| CitationRequired.ParagraphsRoundTrip | src/domain/ai/citation-required.ts:168-171 | paragraphs without surrounding whitespace or blank lines, joined by blank lines, are split back into the same list |
| CitationRequired.ParagraphsOfConcat | src/domain/ai/citation-required.ts:168-171 | any two texts with a blank line between them have the paragraphs of the one followed by those of the other |
| CitationRequired.ParagraphsWithoutBreak | src/domain/ai/citation-required.ts:168-171 | a text without two line feeds in a row is one paragraph, trimmed, or none if nothing is left |
| CitationRequired.TaggedBlockRoundTrip | src/domain/ai/citation-required.ts:97-122 | a tag, any whitespace and a text are parsed back to that kind of block and that text |
| CitationRequired.KindIsDecidedByTag | src/domain/ai/citation-required.ts:111-122 | a paragraph is a conclusion or an action exactly when it starts with that tag, evidence otherwise, and an untagged one keeps its text |
| CitationRequired.AnswerRoundTrip | src/domain/ai/citation-required.ts:97-184 | an answer written as one tagged paragraph per block is read back block by block |
| CitationRequired.BlockErrorExactlyWhenUngrounded | src/domain/ai/citation-required.ts:133-149 | a block is rejected if and only if it has a marker outside the supplied citations, or is evidence without any marker |
| CitationRequired.BlockErrorReasons | src/domain/ai/citation-required.ts:133-149 | a marker outside the supplied citations gives the one error, and evidence without any marker the other |
| CitationRequired.AssertAnswerGrounded | src/domain/ai/citation-required.ts:161-185 | an answer is accepted exactly when citations and paragraphs exist and every block is grounded; otherwise the first offending block decides the error; the result is the stripped text |
| CitationRequired.AcceptedExactly | src/domain/ai/citation-required.ts:111-185 | an answer is accepted exactly when citations were supplied, it has a paragraph, every marker of every paragraph names one of them, and every paragraph that starts with neither the conclusion nor the action tag has a marker |
| CitationRequired.AssertEveryParagraphHasCitation | src/domain/ai/citation-required.ts:46-71 | the older validator passes exactly when every paragraph has a valid marker, and otherwise names the first that has none |
| CitationRequired.ParsingKeepsMarkers | src/domain/ai/citation-required.ts:111-122 | stripping the tag of a block neither adds nor removes a marker |
| CitationRequired.EvidenceIsAsStrictAsBefore | src/domain/ai/citation-required.ts:111-149 | for every paragraph that starts with neither the conclusion nor the action tag, the new validator is the older one plus the rejection of every invalid marker |
| CitationProvision.SpellingsShareArticle | src/domain/ai/citation-provision.ts:18-22 | spacing inside the article number and the title after it do not change the article of the key |
| CitationProvision.OtherReferencesStay | src/domain/ai/citation-provision.ts:18-22 | a reference that starts with no article number stands for itself |
| CitationProvision.KeyIdentifiesProvision | src/domain/ai/citation-provision.ts:3-22 | for contract ids without a colon, keys are equal if and only if contract and article are |
| CitationProvision.CollisionsExactly | src/domain/ai/citation-provision.ts:18-22 | two different contract ids admit equal keys if and only if one with its separator begins the other's and the remainder starts no article number |
| StableSort.SortIsSorted | src/domain/ai/citation-provision.ts:51 | the sort permutes its input and puts nothing after something it should precede |
| StableSort.SortIsStable | src/domain/ai/citation-provision.ts:51 | elements that the comparator ties keep their order, as ECMAScript guarantees |
| StableSort.TiesKeepOrder | src/domain/ai/citation-provision.ts:51 | of two tied elements the one that comes first in the result came first in the input |
| CitationProvision.DeduplicateKeepsBest | src/domain/ai/citation-provision.ts:35-52 | the result has exactly one citation per provision of the input, none of the input with that provision is better, and scores descend |
| CitationProvision.KeptIsClauseFirstThenScore | src/domain/ai/citation-provision.ts:44-49 | for every input citation the kept one of its provision is a clause if it is one, and scores at least as high if of the same type |
| CitationProvision.TiesGoToTheFirst | src/domain/ai/citation-provision.ts:35-52 | of equally good citations of one provision the first is kept, and of equal scores the provision cited first comes first |
| CitationProvision.DeduplicateIsIdempotent | src/domain/ai/citation-provision.ts:35-52 | deduplicating again changes nothing, not even the order |
| CitationProvision.OrderDoesNotMatter | src/domain/ai/citation-provision.ts:24-52 | permuting the input leaves evidence type and score of every provision's citation unchanged |
| CitationProvision.DeduplicateBySameProvision | src/domain/ai/citation-provision.ts:35-52 | the Map loop and the final sort compute that deduplication, with Map entries kept in insertion order |
| AnswerUsedCitations.UsedCitations | src/domain/ai/answer-used-citations.ts:54-59 | for any text only supplied and cited citations are returned, one per provision, by descending score, and every valid marker is represented by a citation of its provision that is no worse than the one it names |
| AnswerUsedCitations.UsedIndexesAreFirsts | src/domain/ai/answer-used-citations.ts:54-59 | the cited indexes are the valid markers in the order in which each first occurs |
| AnswerUsedCitations.GroundedAnswerShowsItsCitations | src/domain/ai/answer-used-citations.ts:40-59 | after acceptance every marker of every block names a supplied citation whose provision is shown, only supplied ones are shown, and an evidence block makes the list non-empty |
| AnswerUsedCitations.AcceptedAnswerHasOnlySuppliedMarkersExactly | src/domain/ai/answer-used-citations.ts:50-53 | the text returned for an accepted answer of any number of blocks has valid markers only if and only if every marker that a block leaves open and the blocks after it close lists supplied citations only |
| AnswerUsedCitations.ClosedAnswerHasOnlySuppliedMarkers | src/domain/ai/answer-used-citations.ts:50-53 | in particular, every marker of the returned text is valid if no block ends inside an opened marker |
| AnswerUsedCitations.OnlySuppliedMarkersExactlyWithoutOpenTail | src/domain/ai/answer-used-citations.ts:50-53 | looking at a grounded conclusion alone: no grounded evidence block put after it can bring in an invalid marker if and only if the conclusion has no open tail |
| AnswerUsedCitations.AcceptedAnswerWithInventedMarker | src/domain/ai/citation-required.ts:173-184 | from any grounded conclusion with an open tail an accepted answer is built whose returned text names a citation never supplied |
| AnswerUsedCitations.OpenConclusionExists | src/domain/ai/citation-required.ts:133-149 | such a conclusion exists for every number of supplied citations |
| ContextTokenBudget.KeptAreFirsts | src/domain/ai/context-builder.ts:96-108 | the keep-first loop keeps in order exactly the first element of every key, and every key stays represented |
| ContextTokenBudget.KeptIsHighestScored | src/domain/ai/context-builder.ts:86-108 | on input sorted by score, a highest-scored element of every key is kept |
| ContextTokenBudget.DeduplicateByKey | src/domain/ai/context-token-budget.ts:77-87 | the loop with the set of seen keys computes that selection |
| ContextTokenBudget.PackedIsGreediest | src/domain/ai/context-token-budget.ts:157-167 | when more evidence never means fewer tokens: where a selection within the budget first differs from the packer's, the packer is the one that takes the candidate |
| ContextTokenBudget.RejectedNeverFits | src/domain/ai/context-token-budget.ts:160-167 | when more evidence never means fewer tokens, no candidate that was passed over could still be added to the final set |
| ContextTokenBudget.PackedIsGreedySelection | src/domain/ai/context-token-budget.ts:157-167 | whatever the cost, a candidate is taken exactly when the prompt with it and those taken before stays within the budget |
| ContextTokenBudget.PackingByComplexity | src/domain/ai/context-token-budget.ts:148-167 | when more evidence never means fewer tokens: for a comprehensive question every de-duplicated citation is kept or too large to be added, for a focused one each of the first five, and nothing after these is kept |
| ContextTokenBudget.PackedEvidenceIsDistinct | src/domain/ai/context-token-budget.ts:148-167 | the kept citations are in input order and pairwise different in normalized evidence |
| ContextTokenBudget.PackCitationsWithinTokenBudget | src/domain/ai/context-token-budget.ts:140-175 | non-empty evidence fits the budget and the reported tokens are those of the final prompt; when more evidence never means fewer tokens, every de-duplicated citation of a comprehensive question, and each of the first five of a focused one, is kept or too large to be added; a focused question keeps none after those five; kept plus dropped is the de-duplicated input |
| BroadIssueSelection.GroupsPartition | src/domain/ai/broad-issue-selection.ts:154-172 | there is one group per category cited, holding exactly that category's citations in order, with its tier and its maximum score |
| BroadIssueSelection.GroupsConserveCitations | src/domain/ai/broad-issue-selection.ts:154-172 | the groups together hold every citation exactly as often as the input |
| BroadIssueSelection.GroupCitationsByIssue | src/domain/ai/broad-issue-selection.ts:154-172 | the Map loop that extends groups computes that grouping in insertion order |
| BroadIssueSelection.GroupsInScoreOrder | src/domain/ai/broad-issue-selection.ts:154-199 | on input sorted by score, the citations of every group descend in score, as the result's documentation says |
| BroadIssueSelection.GroupsInOrderOfFirstCitation | src/domain/ai/broad-issue-selection.ts:154-172 | the groups come in the order in which their categories first occur |
| BroadIssueSelection.RequestedCountIsRead | src/domain/ai/broad-issue-selection.ts:181-195 | the first number that stands before the counter word, with or without whitespace between them, is read whatever other digits come before and whatever follows, bounded to 8; zero and an infinite number count as no request |
| BroadIssueSelection.CountAtExactly | src/domain/ai/broad-issue-selection.ts:181-195 | a number is read at a position exactly when digits, any whitespace and the counter word are written there |
| BroadIssueSelection.SelectBroadIssueCandidates | src/domain/ai/broad-issue-selection.ts:227-255 | returns the grouping, its top-ranked selection and that selection's citations, for exhaustive and bounded requests |
| BroadIssueSelection.SelectionIsTopRanked | src/domain/ai/broad-issue-selection.ts:232-249 | selection and rest are together all groups, nothing left out ranks before anything selected, at most eight unless exhaustive, and something is selected if there is anything |
| BroadIssueSelection.MaterialIssuesComeFirst | src/domain/ai/broad-issue-selection.ts:110-236 | material issues precede all others whatever the scores, boilerplate comes last, and within a tier the top score decides |
| BroadIssueSelection.MaterialCategoriesComeFirst | src/domain/ai/broad-issue-selection.ts:40-236 | the nine material categories precede venue and other, these precede the four boilerplate ones, and within each of the three the top score decides |
| BroadIssueSelection.TiedIssuesKeepOrder | src/domain/ai/broad-issue-selection.ts:232-236 | of issues with equal tier and score the one cited first comes first |
| BroadIssueSelection.FourIssuesByDefault | src/domain/ai/broad-issue-selection.ts:175-248 | four issues are selected, or all if there are fewer, when no number stands before the counter word |
| BroadIssueSelection.FirstCountDecides | src/domain/ai/broad-issue-selection.ts:175-248 | otherwise the first such number is how many issues are selected: at most eight, four for zero or infinity, and no more than there are |
| BroadIssueSelection.SelectionConservesCitations | src/domain/ai/broad-issue-selection.ts:227-255 | no citation is invented or repeated, and an exhaustive request permutes the input |
| BroadIssueSelection.SkeletonMarkersPointAtTheirCitations | src/domain/ai/prompt-builder.ts:243-252 | whatever the order of the supplied citations, every marker of the skeleton is the number under which its citation is shown |
| BroadIssueSelection.SkeletonNumbersEachCitationOnceExactly | src/domain/ai/prompt-builder.ts:243-276 | for the selected citations the skeleton's markers are 1 to n, each once, if and only if no citation object is listed twice |
| BroadIssueSelection.SkeletonBlockIsGrounded | src/domain/ai/prompt-builder.ts:246-253 | a paragraph built from an issue block's markers is parsed back to exactly those indexes and passes the validator |
| HierarchyValidation.ChainRepeats | src/domain/clauses/hierarchy-validation.ts:34-44 | the walk from one node terminates, meets an index twice exactly when the chain does not end, and then some index is its own ancestor |
| HierarchyValidation.EndingChainsGiveRank | src/domain/clauses/hierarchy-validation.ts:28-46 | if every chain ends there is a rank that strictly decreases from child to parent |
| HierarchyValidation.ForestExactlyWithoutCycle | src/domain/clauses/hierarchy-validation.ts:28-46 | such a rank exists if and only if no index is its own ancestor |
| HierarchyValidation.HasHierarchyCycle | src/domain/clauses/hierarchy-validation.ts:28-46 | the check answers true exactly when some index is its own ancestor, and exactly when no rank exists |
| HierarchyValidation.LastNodeDecides | src/domain/clauses/hierarchy-validation.ts:29-32 | of several nodes with one index the last one decides the parent |
| HierarchyValidation.ReferencesValidExactly | src/domain/clauses/hierarchy-validation.ts:10-21 | with distinct indexes all references are valid exactly when every parent is a node and no node is its own parent |
| HierarchyValidation.EveryNodeReachesRoot | src/domain/clauses/hierarchy-validation.ts:10-46 | with valid references and no cycle, every node reaches a parentless node in fewer steps than there are nodes |
| KstCalendar.CalendarIsGregorian | src/domain/analytics/date-buckets.ts:97-138 | the days of every month are the Gregorian ones, leap years included, and the count starts on 1 January 1970 |
| KstCalendar.KstMonthIs | src/domain/analytics/date-buckets.ts:92-102 | an instant is in a KST month exactly when it lies between that month's first KST midnight and the next month's |
| KstCalendar.KstMonthsBeginAtKstMidnight | src/domain/analytics/date-buckets.ts:90-112 | every KST month begins at 15:00 UTC |
| KstCalendar.KeysAreDistinct | src/domain/analytics/date-buckets.ts:97-102 | different months have different keys |
| KstCalendar.KeyShape | src/domain/analytics/date-buckets.ts:97-102 | for four-digit years a key is four digits, a dash and two digits, and they say year and month |
| KstCalendar.KeysSortByTime | src/domain/analytics/date-buckets.ts:114-131 | for four-digit years the text order of keys is the time order of their months |
| KstCalendar.BoundsOfKey | src/domain/analytics/date-buckets.ts:105-112 | the bounds read back from any month's key, including what the century remap and the minus sign do to early years |
| KstCalendar.InstantInRangeOfItsKey | src/domain/analytics/date-buckets.ts:96-112 | an instant lies in the range of its own month key if and only if its year is at least 100 |
| KstCalendar.KeysAndRangesAgree | src/domain/analytics/date-buckets.ts:96-112 | from year 100 on, two instants share a key if and only if one lies in the range of the other's key |
| KstCalendar.LastNMonthsKst | src/domain/analytics/date-buckets.ts:119-131 | the loop returns the keys of the last n months in ascending order, ending with the present one; none for a non-positive count |
| KstCalendar.LastMonthsAreConsecutive | src/domain/analytics/date-buckets.ts:114-131 | each range ends where the next begins, keys differ, and the last range holds the present instant |
| KstCalendar.LastMonthsTile | src/domain/analytics/date-buckets.ts:114-131 | the ranges tile one stretch of time without gap or overlap |
| KstCalendar.SubtractedFields | src/domain/analytics/date-buckets.ts:134-138 | the result is on the same day of the target month if it has one, else as many days into the next month as the day exceeds it; the time of day stays |
| KstCalendar.SubtractIsStrictlyDecreasing | src/domain/analytics/date-buckets.ts:134-138 | subtracting more months goes strictly further back, whatever the day overflows to |
| KstCalendar.SubtractRoundTrip | src/domain/analytics/date-buckets.ts:134-138 | adding the months back restores the instant if and only if the target month has the day |
| AnalyticsPeriod.DayIndexIs | src/domain/contracts/get-computed-contract-status.ts:27-34 | the day index and its inverse agree on every boundary, and the inverse yields KST midnights |
| AnalyticsPeriod.BackwardsExactly | src/domain/analytics/period.ts:39-45 | subtracting months from a KST midnight gives a KST midnight, an earlier one exactly for a positive number |
| AnalyticsPeriod.RequestedDaysAreWhole | src/domain/analytics/period.ts:30-37 | the period covers its first and last day in full, from KST midnight to KST midnight |
| AnalyticsPeriod.ResolveAnalyticsPeriod | src/domain/analytics/period.ts:26-51 | both ends are KST midnights, the period is never longer than the maximum and is non-empty under an exact condition; which start is used is determined in every case |
| AnalyticsPeriod.StatusByInstant | src/domain/contracts/get-computed-contract-status.ts:53-78 | hand-set statuses and contracts without an end stay; any other contract that ended before today began in KST is displayed as expired, one that ends within today and the next thirty days as expiring, the rest as stored |
| AnalyticsPeriod.BucketByInstant | src/domain/analytics/date-buckets.ts:35-59 | the buckets adjoin at KST midnights 0, 1, 8, 31, 91 and 181 days after today began |
| AnalyticsPeriod.BucketAgreesWithStatusExactly | src/domain/analytics/date-buckets.ts:3-59 | for every stored status, bucket and displayed status agree about expired and expiring if and only if the status is stored as active, or is not hand-set and the contract ended or ends within thirty days, or is hand-set and it does neither |
| AnalyticsPeriod.StoredStatusDisagrees | src/domain/contracts/get-computed-contract-status.ts:67-77 | a stored expired contract with 200 days to go is displayed as expired in the bucket of 181 days and more, and a stored expiring one without an end falls into the bucket without end date |
| Csv.ReadsQuoted | src/domain/analytics/csv.ts:19-22 | reading a quoted field undoes the doubling of quotes for any content |
| Csv.EveryFieldIsQuoted | src/domain/analytics/csv.ts:18-22 | every field is quoted, needed or not, and its closing quote is its last character |
| Csv.ReadsRecord | src/domain/analytics/csv.ts:24-26 | reading a written row of at least one field gives its cells, whatever follows |
| Csv.CsvRoundTrip | src/domain/analytics/csv.ts:28-33 | a reader for section 2 of RFC 4180 returns exactly the neutralized table if and only if no row, header included, is without fields |
| Csv.CellsAreNoFormulas | src/domain/analytics/csv.ts:8-22 | no written cell starts with a formula prefix, and harmless values are written as they are |
| Csv.WrittenBehindApostropheExactly | src/domain/analytics/csv.ts:8-22 | a value is written as it is, or behind an apostrophe exactly when it starts with one of the six characters; an absent one is empty |
| Csv.ExportHasNoFormulas | src/domain/analytics/csv.ts:1-33 | whatever the values, an export can be read back and no cell read from it starts with one of the six characters |
| Csv.NeutralizedValuesCollideExactly | src/domain/analytics/csv.ts:11-16 | two values are neutralized to the same text exactly when they are equal or one is the other, a formula, behind an apostrophe |
| CosineSimilarity.CosineSimilarity | src/domain/ai/cosine-similarity.ts:11-30 | the one-pass loop returns the quotient of inner product and norms, 0 for a zero vector, and an error for different lengths |
| CosineSimilarity.CauchySchwarz | src/domain/ai/cosine-similarity.ts:11-30 | the squared inner product is at most the product of the squared norms |
| CosineSimilarity.CosineInRange | src/domain/ai/cosine-similarity.ts:25-29 | the similarity lies in [-1, 1] |
| CosineSimilarity.CosineTimesLengths | src/domain/ai/cosine-similarity.ts:11-30 | the similarity times both lengths is the inner product, and it is 0 if either vector is zero |
| CosineSimilarity.CosineIsSymmetric | src/domain/ai/cosine-similarity.ts:11-30 | the similarity does not depend on the order of the vectors |
| CosineSimilarity.CosineWithItself | src/domain/ai/cosine-similarity.ts:11-30 | a non-zero vector has similarity 1 with itself |
| CosineSimilarity.CosineIgnoresScale | src/domain/ai/cosine-similarity.ts:4-30 | scaling by a positive factor does not change the similarity, so normalizing beforehand does not matter |
| HashingTrickEmbedding.ShiftsMultiplyByPrime | src/domain/ai/hashing-trick-embedding.ts:32-34 | the shifts and adds on signed 32-bit values are one multiplication by the FNV prime modulo 2^32 |
| HashingTrickEmbedding.Fnv1a32 | src/domain/ai/hashing-trick-embedding.ts:28-37 | the loop computes the published 32-bit FNV-1a over UTF-16 code units |
| HashingTrickEmbedding.ExtractTrigrams | src/domain/ai/hashing-trick-embedding.ts:39-51 | the loop returns every window of three code units, the text itself if it is shorter, nothing for the empty text |
| HashingTrickEmbedding.TrigramsAreWindows | src/domain/ai/hashing-trick-embedding.ts:39-51 | the grams are every three neighbouring code units from left to right, or a shorter text itself |
| HashingTrickEmbedding.AccumulateCounts | src/domain/ai/hashing-trick-embedding.ts:74-82 | after the in-place updates every bucket holds the signed count of the trigrams hashed to it |
| HashingTrickEmbedding.L2Normalize | src/domain/ai/hashing-trick-embedding.ts:53-63 | the loop divides by the norm, and leaves a zero vector alone |
| HashingTrickEmbedding.NormalizingKeepsSimilarity | src/domain/ai/hashing-trick-embedding.ts:53-63 | normalizing a non-zero vector gives length one and changes no similarity |
| HashingTrickEmbedding.ComputeHashingTrickEmbedding | src/domain/ai/hashing-trick-embedding.ts:73-85 | the whole function returns the normalized vector of signed counts, to which the similarity theorems apply |
| HashingTrickEmbedding.SignIsDecidedByIndexExactly | src/domain/ai/hashing-trick-embedding.ts:65-82 | hashes of one bucket always share their sign if and only if the dimension is even (or so large that no two hashes share a bucket) |
| HashingTrickEmbedding.CountsNeverCancel | src/domain/ai/hashing-trick-embedding.ts:77-82 | with an even dimension every bucket holds its number of hits, odd ones with plus and even ones with minus |
| HashingTrickEmbedding.EvenDimensionNeverOpposes | src/domain/ai/hashing-trick-embedding.ts:65-85 | with an even dimension no two texts have a negative product, and it is positive exactly when some of their trigrams share a bucket |
| HashingTrickEmbedding.SharedTrigramSharesBucket | src/domain/ai/hashing-trick-embedding.ts:2-8 | texts that share a trigram share a bucket |
| HashingTrickEmbedding.TextSimilarity | src/domain/ai/hashing-trick-embedding.ts:73-85 | for an even dimension the similarity of two embeddings is their plain inner product, lies in [0, 1], and is 0 exactly when no trigrams share a bucket |
| HashingTrickEmbedding.TextSimilarityWithItself | src/domain/ai/hashing-trick-embedding.ts:53-85 | for an even dimension every non-empty text has similarity 1 with itself |
| HashingTrickEmbedding.OddDimensionCanCancel | src/domain/ai/hashing-trick-embedding.ts:77-82 | for every odd dimension there are two hash values that share a bucket and erase each other |
| HashingTrickEmbedding.OddDimensionCanEraseText | src/domain/ai/hashing-trick-embedding.ts:28-85 | a concrete text, "aeef" with dimension 255, whose two trigrams erase each other, so that its similarity to every text, itself included, is 0 |
| NormalizeClauseText.NormalizeYieldsNormal | src/domain/clauses/normalize-clause-text.ts:8-18 | the result has no curly quotes, carriage returns, tabs, double blanks, double line feeds, outer whitespace or upper case, and the texts left unchanged are exactly those |
| NormalizeClauseText.NormalizeIsIdempotent | src/domain/clauses/normalize-clause-text.ts:8-18 | normalizing twice is normalizing once |
| NormalizeClauseText.NormalizeKeepsText | src/domain/clauses/normalize-clause-text.ts:1-18 | the characters other than whitespace come through in order, straightened and lower-cased, so nothing else is lost |
| NormalizeClauseText.GapBecomes | src/domain/clauses/normalize-clause-text.ts:12-17 | between two visible characters nothing stays nothing, blanks and tabs become one blank, and line breaks of any kind and number become one line feed; either side becomes what it would become alone |
| NormalizeClauseText.CharacterBecomes | src/domain/clauses/normalize-clause-text.ts:8-18 | a visible character becomes its lower case, the four curly quotes having become straight |
| WorkerScheduler.StepKeepsInv | scripts/worker-scheduler.ts:107-135 | every step of every loop, of the signal handler and of `main` keeps the invariant between loops, active runs, flag and log |
| WorkerScheduler.EveryExecutionIsSafe | scripts/worker-scheduler.ts:100-135 | in every interleaving a job's runs never overlap, no run starts after the shutdown request, no loop sleeps after it, and the worker stops only when no run is active and every started run has ended |
| WorkerScheduler.RunsFollowTheSchedule | scripts/worker-scheduler.ts:107-120 | in every execution a job is started once and then once for every time its loop comes back from a sleep before the first signal, each time after a poll interval of its own |
| WorkerScheduler.JobsRunAnyNumberOfTimes | scripts/worker-scheduler.ts:107-120 | without a signal every job can be started any number of times |
| WorkerScheduler.StepAfterShutdownMakesProgress | scripts/worker-scheduler.ts:107-128 | after the request every step other than a repeated signal decreases a measure |
| WorkerScheduler.NeverStuck | scripts/worker-scheduler.ts:107-135 | in every state before the worker has stopped, shutdown requested or not, some step other than a signal is possible |
| WorkerScheduler.ShutdownCompletes | scripts/worker-scheduler.ts:52-135 | after the request every schedule does at most three steps per job and one more, and one that can do nothing further has stopped with no active run |

## Left out

- FindCitationMarkers: digit runs of more than 20 digits, which ECMAScript lets an implementation approximate after the twentieth; the model rounds every run to the nearest number, here and in RequestedCountIsRead.
- NormalizeIsIdempotent: Unicode NFC and lower-casings that change the number of characters; NFC is taken as done and lower-casing is any character map that settles in one step and leaves whitespace and quotes alone.
- ChunkDocumentText: the gpt-tokenizer and the article-heading pattern of `clause-number-patterns.ts`, which are parameters; there is no unconditional bound of 1200 tokens, because a single longer sentence is left whole.
- PackCitationsWithinTokenBudget: the prompt text itself; its token count is an arbitrary function of the kept citations, and the budget is a parameter instead of the environment-derived constant.
- RejectedNeverFits: assumes, as PackedIsGreediest does, that more evidence never means fewer tokens, which a tokenizer need not satisfy at a boundary.
- GroupCitationsByIssue: the keyword patterns of the classifier; it is an arbitrary function to categories, with the category's tier as in the table.
- SelectBroadIssueCandidates: the pattern of `isExhaustiveReviewRequest`; its answer is a parameter.
- DeduplicateBySameProvision: NaN scores; scores are real numbers.
- CosineInRange: rounding; vectors, square root and quotient are ideal reals.
- ComputeHashingTrickEmbedding: a dimension of zero, which the code never uses, and rounding in the normalization.
- BoundsOfKey: month keys that `monthKeyKst` never produces, for which the code computes with NaN.
- SubtractRoundTrip: invalid dates and instants beyond the range of ECMAScript time values.
- EveryExecutionIsSafe: subprocesses, logging, fatal errors and the length of the poll interval; a run may take any time and settle in any way.
- Strings are sequences of Unicode characters, not UTF-16 code units, except in the embedding; offsets differ for characters outside the basic plane.
- Number, date and amount tokens and `compareClauseToStandard` in the clause diff: regular expressions and set differences only.
- Stale-signal buckets, the CSV byte order mark and file names: thresholds and constants that would only add easy members.
- Prompt wording, error texts, labels and keyword lists: data.
- Everything else in the repository: web application, database access, vector search, mail, authentication, backup and the other scripts.
