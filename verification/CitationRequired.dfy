/** Block-aware grounding of an answer (src/domain/ai/citation-required.ts). */
module CitationRequired {
  import opened JsText
  import opened Seqs
  import opened CitationMarker

  datatype Result<+T, +E> = Success(value: T) | Failure(error: E)

  datatype GroundingError =
    | NoCitations
    | EmptyAnswer
    | UnknownCitationMarker(block: ParsedAnswerBlock)
    | MissingRequiredCitation(block: ParsedAnswerBlock)

  datatype AnswerBlockType = Conclusion | Evidence | Action
  datatype ParsedAnswerBlock = ParsedAnswerBlock(kind: AnswerBlockType, text: string)

  // ----- paragraphs: split(/\n{2,}/), trim, drop the empty ones -----

  function BreakAt(text: string, from: nat): (p: nat)
    requires from <= |text|
    ensures from <= p <= |text|
    ensures p < |text| ==> p + 1 < |text| && text[p] == '\n' && text[p + 1] == '\n'
    ensures forall k :: from <= k < p && k + 1 < |text| ==> !(text[k] == '\n' && text[k + 1] == '\n')
    decreases |text| - from
  {
    if from + 1 >= |text| then |text|
    else if text[from] == '\n' && text[from + 1] == '\n' then from
    else BreakAt(text, from + 1)
  }

  function SplitAtBreaks(text: string): seq<string>
    decreases |text|
  {
    var p := BreakAt(text, 0);
    if p == |text| then [text] else [text[..p]] + SplitAtBreaks(text[RunEnd(text, p, c => c == '\n')..])
  }

  function Paragraphs(answerText: string): seq<string> {
    TrimmedNonEmpty(SplitAtBreaks(answerText))
  }

  ghost predicate IsBreakAt(text: string, k: nat) {
    k + 1 < |text| && text[k] == '\n' && text[k + 1] == '\n'
  }

  ghost predicate AllLineFeeds(text: string, lo: nat, hi: nat)
    requires hi <= |text|
  {
    forall k :: lo <= k < hi ==> text[k] == '\n'
  }

  /** The first blank line of a text: from its first two line feeds in a row to the end of that run. */
  ghost predicate IsCut(text: string, p: nat, e: nat) {
    && p + 2 <= e <= |text| && AllLineFeeds(text, p, e) && (e < |text| ==> text[e] != '\n')
    && forall k: nat :: k < p ==> !IsBreakAt(text, k)
  }

  ghost predicate HasNoBreak(text: string) {
    forall k: nat :: !IsBreakAt(text, k)
  }

  lemma {:induction false} FindCut(text: string) returns (p: nat, e: nat)
    ensures HasNoBreak(text) || (IsCut(text, p, e) && p < e <= |text|)
  {
    p := BreakAt(text, 0);
    e := RunEnd(text, p, c => c == '\n');
  }

  lemma {:induction false} ParagraphsStep(text: string, p: nat, e: nat)
    requires IsCut(text, p, e)
    ensures Paragraphs(text) == Kept(text[..p]) + Paragraphs(text[e..])
  {
    hide Kept;
    forall k | 0 <= k < p
      ensures !(text[k] == '\n' && text[k + 1] == '\n')
    {
      assert !IsBreakAt(text, k);
    }
    BreakAtIs(text, 0, p);
    assert RunEnd(text, p, c => c == '\n') == e;
    TrimmedNonEmptyCons(text[..p], SplitAtBreaks(text[e..]));
  }

  /** A text without a blank line is one paragraph, or none. */
  lemma {:induction false} ParagraphsWithoutBreak(text: string)
    requires HasNoBreak(text)
    ensures Paragraphs(text) == Kept(text)
  {
    hide Kept;
    var p := BreakAt(text, 0);
    assert !IsBreakAt(text, p);
    assert [text] + [] == [text];
    TrimmedNonEmptyCons(text, []);
  }

  /** A line feed in front makes no paragraph. */
  lemma {:induction false} LeadingLineFeed(u: string)
    ensures Paragraphs("\n" + u) == Paragraphs(u)
    decreases |u|
  {
    hide Kept, Paragraphs, IsCut, HasNoBreak;
    var t := "\n" + u;
    if u != "" && u[0] == '\n' {
      var n := CountLineFeeds(u);
      CutOfTwo(u, n);
      ParagraphsStep(t, 0, n + 1);
      assert t[..0] == u[..0] == "" && t[n + 1..] == u[n..];
      KeptOfNothing();
      if n >= 2 {
        ParagraphsStep(u, 0, n);
      } else {
        assert u == "\n" + u[1..];
        LeadingLineFeed(u[1..]);
      }
    } else {
      var p, e := FindCut(u);
      if HasNoBreak(u) {
        NoBreakBehindLineFeed(u);
        ParagraphsWithoutBreak(u);
        ParagraphsWithoutBreak(t);
        KeptBehindLineFeed(u);
      } else {
        CutBehindLineFeed(u, p, e);
        ParagraphsStep(u, p, e);
        ParagraphsStep(t, p + 1, e + 1);
        assert t[..p + 1] == "\n" + u[..p] && t[e + 1..] == u[e..];
        KeptBehindLineFeed(u[..p]);
      }
    }
  }

  lemma {:induction false} CountLineFeeds(u: string) returns (n: nat)
    ensures n <= |u| && AllLineFeeds(u, 0, n) && (n < |u| ==> u[n] != '\n')
  {
    n := RunEnd(u, 0, c => c == '\n');
  }

  lemma {:induction false} CutOfTwo(u: string, n: nat)
    requires 0 < n <= |u| && AllLineFeeds(u, 0, n) && (n < |u| ==> u[n] != '\n')
    ensures IsCut("\n" + u, 0, n + 1)
    ensures n >= 2 ==> IsCut(u, 0, n)
  {
    var t := "\n" + u;
    assert forall k :: 0 < k < |t| ==> t[k] == u[k - 1];
  }

  lemma {:induction false} NoBreakBehindLineFeed(u: string)
    requires HasNoBreak(u) && (u != "" ==> u[0] != '\n')
    ensures HasNoBreak("\n" + u)
  {
    forall k: nat
      ensures !IsBreakAt("\n" + u, k)
    {
      BreakBehindLineFeed(u, k);
    }
  }

  lemma {:induction false} BreakBehindLineFeed(u: string, k: nat)
    ensures IsBreakAt("\n" + u, k) <==> if k == 0 then u != "" && u[0] == '\n' else IsBreakAt(u, k - 1)
  {
  }

  lemma {:induction false} CutBehindLineFeed(u: string, p: nat, e: nat)
    requires IsCut(u, p, e) && (u != "" ==> u[0] != '\n')
    ensures IsCut("\n" + u, p + 1, e + 1)
  {
    var t := "\n" + u;
    assert forall k :: 0 < k < |t| ==> t[k] == u[k - 1];
    forall k: nat | k < p + 1
      ensures !IsBreakAt(t, k)
    {
      BreakBehindLineFeed(u, k);
    }
  }

  lemma {:induction false} KeptOfNothing()
    ensures Kept("") == []
  {
  }

  lemma {:induction false} KeptBehindLineFeed(s: string)
    ensures Kept("\n" + s) == Kept(s)
  {
    hide Trim, IsSpace;
    LineFeedIsSpace();
    TrimDropsLeadingSpace('\n', s);
  }

  lemma {:induction false} KeptBeforeLineFeed(s: string)
    ensures Kept(s + "\n") == Kept(s)
  {
    hide Trim, IsSpace;
    LineFeedIsSpace();
    TrimDropsSpace(s, '\n');
  }

  lemma {:induction false} LeadingLineFeeds(u: string, n: nat)
    requires n <= |u| && AllLineFeeds(u, 0, n)
    ensures Paragraphs(u[n..]) == Paragraphs(u)
    decreases n
  {
    hide Paragraphs;
    if n > 0 {
      assert u == "\n" + u[1..] && u[1..][n - 1..] == u[n..];
      LeadingLineFeed(u[1..]);
      LeadingLineFeeds(u[1..], n - 1);
    } else {
      assert u[0..] == u;
    }
  }

  /** Two texts with a blank line between them have the paragraphs of the one and then those of the other. */
  lemma {:induction false} ParagraphsOfConcat(s: string, u: string)
    ensures Paragraphs(s + PARAGRAPH_BREAK + u) == Paragraphs(s) + Paragraphs(u)
    decreases |s|
  {
    hide Kept, Paragraphs, IsCut, HasNoBreak, AllLineFeeds;
    var t := s + PARAGRAPH_BREAK + u;
    var n := CountLineFeeds(u);
    LeadingLineFeeds(u, n);
    var end := |s| + 2 + n;
    assert t[end..] == u[n..];
    var p, e := FindCut(s);
    if HasNoBreak(s) {
      ParagraphsWithoutBreak(s);
      CutAfter(s, u, n);
      if s != "" && s[|s| - 1] == '\n' {
        ParagraphsStep(t, |s| - 1, end);
        assert t[..|s| - 1] == s[..|s| - 1] && s == s[..|s| - 1] + "\n";
        KeptBeforeLineFeed(s[..|s| - 1]);
      } else {
        ParagraphsStep(t, |s|, end);
        assert t[..|s|] == s;
      }
    } else {
      ParagraphsStep(s, p, e);
      CutWithin(s, u, n, p, e);
      assert t[..p] == s[..p];
      if e < |s| {
        ParagraphsStep(t, p, e);
        assert t[e..] == s[e..] + PARAGRAPH_BREAK + u;
        ParagraphsOfConcat(s[e..], u);
      } else {
        ParagraphsStep(t, p, end);
        NothingHasNoParagraph(s[e..]);
      }
    }
  }

  lemma {:induction false} NothingHasNoParagraph(s: string)
    requires s == ""
    ensures Paragraphs(s) == []
  {
    ParagraphsWithoutBreak("");
  }

  lemma {:induction false} JoinedChars(s: string, u: string)
    ensures var t := s + PARAGRAPH_BREAK + u;
            && |t| == |s| + 2 + |u| && (forall k :: 0 <= k < |s| ==> t[k] == s[k])
            && t[|s|] == '\n' && t[|s| + 1] == '\n' && (forall k :: |s| + 2 <= k < |t| ==> t[k] == u[k - |s| - 2])
  {
  }

  lemma {:induction false} SameBreaks(s: string, u: string, k: nat)
    requires k + 1 < |s|
    ensures IsBreakAt(s + PARAGRAPH_BREAK + u, k) <==> IsBreakAt(s, k)
  {
    JoinedChars(s, u);
  }

  lemma {:induction false} CutAfter(s: string, u: string, n: nat)
    requires HasNoBreak(s) && n <= |u| && AllLineFeeds(u, 0, n) && (n < |u| ==> u[n] != '\n')
    ensures IsCut(s + PARAGRAPH_BREAK + u, if s != "" && s[|s| - 1] == '\n' then |s| - 1 else |s|, |s| + 2 + n)
  {
    var t := s + PARAGRAPH_BREAK + u;
    JoinedChars(s, u);
    var p := if s != "" && s[|s| - 1] == '\n' then |s| - 1 else |s|;
    forall k: nat | k < p
      ensures !IsBreakAt(t, k)
    {
      if k + 1 < |s| {
        SameBreaks(s, u, k);
      }
    }
  }

  lemma {:induction false} CutWithin(s: string, u: string, n: nat, p: nat, e: nat)
    requires IsCut(s, p, e) && n <= |u| && AllLineFeeds(u, 0, n) && (n < |u| ==> u[n] != '\n')
    ensures IsCut(s + PARAGRAPH_BREAK + u, p, if e < |s| then e else |s| + 2 + n)
  {
    var t := s + PARAGRAPH_BREAK + u;
    JoinedChars(s, u);
    forall k: nat | k < p
      ensures !IsBreakAt(t, k)
    {
      SameBreaks(s, u, k);
    }
  }

  // ----- blocks -----

  const TAG_CONCLUSION := "[결론]"
  const TAG_EVIDENCE := "[근거]"
  const TAG_ACTION := "[확인사항]"

  function Untagged(paragraph: string, tag: string): string
    requires tag <= paragraph
  {
    paragraph[RunEnd(paragraph, |tag|, IsSpace)..]
  }

  function ParseAnswerBlock(paragraph: string): ParsedAnswerBlock {
    if TAG_CONCLUSION <= paragraph then ParsedAnswerBlock(Conclusion, Untagged(paragraph, TAG_CONCLUSION))
    else if TAG_EVIDENCE <= paragraph then ParsedAnswerBlock(Evidence, Untagged(paragraph, TAG_EVIDENCE))
    else if TAG_ACTION <= paragraph then ParsedAnswerBlock(Action, Untagged(paragraph, TAG_ACTION))
    else ParsedAnswerBlock(Evidence, paragraph)
  }

  function Blocks(answerText: string): (bs: seq<ParsedAnswerBlock>)
    ensures |bs| == |Paragraphs(answerText)|
  {
    Map(ParseAnswerBlock, Paragraphs(answerText))
  }

  function Texts(blocks: seq<ParsedAnswerBlock>): (ts: seq<string>)
    ensures |ts| == |blocks|
  {
    seq(|blocks|, i requires 0 <= i < |blocks| => blocks[i].text)
  }

  // ----- grounding -----

  predicate IsSupplied(index: nat, supplied: nat) {
    1 <= index <= supplied
  }

  /** What the validator promises of a block: no marker outside the supplied citations, and one where one is required. */
  ghost predicate IsGrounded(block: ParsedAnswerBlock, supplied: nat) {
    var markers := FindMarkers(block.text);
    (forall i :: 0 <= i < |markers| ==> IsSupplied(markers[i], supplied)) && (block.kind == Evidence ==> markers != [])
  }

  function ValidMarkers(markers: seq<nat>, supplied: nat): (valid: seq<nat>)
    ensures |valid| <= |markers|
  {
    if markers == [] then []
    else (if IsSupplied(markers[0], supplied) then [markers[0]] else []) + ValidMarkers(markers[1..], supplied)
  }

  lemma {:induction false} AllValidExactlyWhenNoneIsDropped(markers: seq<nat>, supplied: nat)
    ensures |ValidMarkers(markers, supplied)| == |markers|
            <==> forall i :: 0 <= i < |markers| ==> IsSupplied(markers[i], supplied)
  {
    if markers != [] {
      AllValidExactlyWhenNoneIsDropped(markers[1..], supplied);
      assert forall i :: 0 < i < |markers| ==> markers[i] == markers[1..][i - 1];
      if forall i :: 0 <= i < |markers[1..]| ==> IsSupplied(markers[1..][i], supplied) {
        assert forall i :: 0 < i < |markers| ==> IsSupplied(markers[i], supplied);
      }
    }
  }

  /** `assertAnswerBlockGrounded`: the error it throws, if any. */
  function BlockError(block: ParsedAnswerBlock, supplied: nat): Option<GroundingError> {
    var markers := FindMarkers(block.text);
    var valid := ValidMarkers(markers, supplied);
    if |markers| > |valid| then Some(UnknownCitationMarker(block))
    else if block.kind == Evidence && |valid| == 0 then Some(MissingRequiredCitation(block))
    else None
  }

  lemma {:induction false} BlockErrorExactlyWhenUngrounded(block: ParsedAnswerBlock, supplied: nat)
    ensures BlockError(block, supplied).None? <==> IsGrounded(block, supplied)
  {
    hide FindMarkers;
    AllValidExactlyWhenNoneIsDropped(FindMarkers(block.text), supplied);
  }

  ghost predicate IsAccepted(answerText: string, supplied: nat) {
    supplied > 0 && Blocks(answerText) != []
    && forall i :: 0 <= i < |Blocks(answerText)| ==> IsGrounded(Blocks(answerText)[i], supplied)
  }

  /** The text the validator returns for an accepted answer. */
  function GroundedText(answerText: string): string {
    Join(Texts(Blocks(answerText)), PARAGRAPH_BREAK)
  }

  /**
    * `assertAnswerGrounded`: succeeds exactly when there are citations and paragraphs and every block is grounded, and
    * then returns the stripped paragraphs; otherwise the first offending block decides the error.
    */
  method AssertAnswerGrounded(answerText: string, supplied: nat) returns (r: Result<string, GroundingError>)
    ensures r.Success? <==> IsAccepted(answerText, supplied)
    ensures r.Success? ==> r.value == GroundedText(answerText)
    ensures r.Failure? && supplied == 0 ==> r.error == NoCitations
    ensures r.Failure? && supplied > 0 ==> if Blocks(answerText) == [] then r.error == EmptyAnswer else
              exists i :: 0 <= i < |Blocks(answerText)| && BlockError(Blocks(answerText)[i], supplied) == Some(r.error)
                          && forall j :: 0 <= j < i ==> IsGrounded(Blocks(answerText)[j], supplied)
  {
    hide FindMarkers, ParseAnswerBlock, IsGrounded, BlockError, Paragraphs, Join;
    if supplied == 0 {
      return Failure(NoCitations);
    }
    var paragraphs := Paragraphs(answerText);
    if |paragraphs| == 0 {
      return Failure(EmptyAnswer);
    }
    ghost var blocks := Blocks(answerText);
    var stripped: seq<string> := [];
    for n := 0 to |paragraphs|
      invariant stripped == Texts(blocks)[..n]
      invariant forall j :: 0 <= j < n ==> IsGrounded(blocks[j], supplied)
    {
      var block := ParseAnswerBlock(paragraphs[n]);
      BlockErrorExactlyWhenUngrounded(block, supplied);
      assert block == blocks[n];
      var error := BlockError(block, supplied);
      if error.Some? {
        return Failure(error.value);
      }
      stripped := stripped + [block.text];
    }
    assert stripped == Texts(blocks);
    return Success(Join(stripped, PARAGRAPH_BREAK));
  }

  // ----- every list of tidy paragraphs is the paragraphs of some answer -----

  ghost predicate IsTidy(p: string) {
    p != "" && !IsSpace(p[0]) && !IsSpace(p[|p| - 1]) && BreakAt(p, 0) == |p|
  }

  lemma {:induction false} BreakAtIs(t: string, from: nat, p: nat)
    requires from <= p && p + 1 < |t| && t[p] == '\n' && t[p + 1] == '\n'
    requires forall k :: from <= k < p ==> !(t[k] == '\n' && t[k + 1] == '\n')
    ensures BreakAt(t, from) == p
    decreases p - from
  {
    if from < p {
      BreakAtIs(t, from + 1, p);
    }
  }

  lemma {:induction false} TidyThenBreak(p: string, rest: string)
    requires IsTidy(p) && rest != "" && !IsSpace(rest[0])
    ensures SplitAtBreaks(p + PARAGRAPH_BREAK + rest) == [p] + SplitAtBreaks(rest)
  {
    hide IsSpace;
    var t := p + PARAGRAPH_BREAK + rest;
    assert forall k :: 0 <= k < |p| ==> t[k] == p[k];
    assert t[|p|] == '\n' && t[|p| + 1] == '\n' && t[|p| + 2] == rest[0];
    assert IsSpace('\n') by { LineFeedIsSpace(); }
    BreakAtIs(t, 0, |p|);
    assert RunEnd(t, |p|, c => c == '\n') == |p| + 2;
    assert t[..|p|] == p && t[|p| + 2..] == rest;
  }

  lemma {:induction false} LineFeedIsSpace()
    ensures IsSpace('\n')
  {
  }

  lemma {:induction false} ParagraphsRoundTrip(ps: seq<string>)
    requires ps != [] && forall i :: 0 <= i < |ps| ==> IsTidy(ps[i])
    ensures Paragraphs(Join(ps, PARAGRAPH_BREAK)) == ps
    ensures ps[0] != "" && Join(ps, PARAGRAPH_BREAK) != "" && Join(ps, PARAGRAPH_BREAK)[0] == ps[0][0]
  {
    hide IsSpace, BreakAt;
    TrimFixesTrimmed(ps[0]);
    if |ps| == 1 {
      assert SplitAtBreaks(ps[0]) == [ps[0]];
      assert [ps[0]][1..] == [] && ps == [ps[0]];
      assert TrimmedNonEmpty([ps[0]]) == [ps[0]] + TrimmedNonEmpty([ps[0]][1..]);
    } else {
      var rest := Join(ps[1..], PARAGRAPH_BREAK);
      assert IsTidy(ps[1]);
      ParagraphsRoundTrip(ps[1..]);
      TidyThenBreak(ps[0], rest);
      assert ([ps[0]] + SplitAtBreaks(rest))[1..] == SplitAtBreaks(rest);
      assert TrimmedNonEmpty([ps[0]] + SplitAtBreaks(rest)) == [ps[0]] + TrimmedNonEmpty(SplitAtBreaks(rest));
    }
  }

  // ----- tagged answers -----

  function TagOf(kind: AnswerBlockType): string {
    match kind
    case Conclusion => TAG_CONCLUSION
    case Evidence => TAG_EVIDENCE
    case Action => TAG_ACTION
  }

  lemma {:induction false} TagsDiffer()
    ensures TAG_CONCLUSION == ['[', '결', '론', ']'] && TAG_EVIDENCE == ['[', '근', '거', ']'] && |TAG_ACTION| == 6
    ensures TAG_ACTION[0] == '[' && TAG_ACTION[1] == '확'
  {
  }

  lemma {:induction false} OnlyItsOwnTag(kind: AnswerBlockType, other: AnswerBlockType, rest: string)
    requires TagOf(other) <= TagOf(kind) + rest
    ensures other == kind
  {
    TagsDiffer();
    assert (TagOf(kind) + rest)[1] == TagOf(kind)[1] == TagOf(other)[1];
  }

  /** A tag, any whitespace and a text without leading whitespace are parsed back to that kind of block and that text. */
  lemma {:induction false} TaggedBlockRoundTrip(kind: AnswerBlockType, blank: string, text: string)
    requires Blank(blank, 0, |blank|) && (text != "" ==> !IsSpace(text[0]))
    ensures ParseAnswerBlock(TagOf(kind) + blank + text) == ParsedAnswerBlock(kind, text)
  {
    hide IsSpace, TagOf;
    var tag := TagOf(kind);
    var t := tag + blank + text;
    assert t == tag + (blank + text);
    forall other | TagOf(other) <= t ensures other == kind {
      OnlyItsOwnTag(kind, other, blank + text);
    }
    UntaggedIs(tag, blank, text);
    ParsesByTag(t, kind);
  }

  lemma {:induction false} UntaggedIs(tag: string, blank: string, text: string)
    requires Blank(blank, 0, |blank|) && (text != "" ==> !IsSpace(text[0]))
    ensures tag <= tag + blank + text && Untagged(tag + blank + text, tag) == text
  {
    hide IsSpace;
    var t := tag + blank + text;
    var e := |tag| + |blank|;
    assert forall k :: |tag| <= k < e ==> t[k] == blank[k - |tag|];
    assert text != "" ==> t[e] == text[0];
    assert RunEnd(t, |tag|, IsSpace) == e;
    assert t[e..] == text;
  }

  lemma {:induction false} ParsesByTag(paragraph: string, kind: AnswerBlockType)
    requires TagOf(kind) <= paragraph && forall other :: TagOf(other) <= paragraph ==> other == kind
    ensures ParseAnswerBlock(paragraph) == ParsedAnswerBlock(kind, Untagged(paragraph, TagOf(kind)))
  {
    hide Untagged;
    assert TagOf(Conclusion) == TAG_CONCLUSION && TagOf(Evidence) == TAG_EVIDENCE && TagOf(Action) == TAG_ACTION;
  }

  function Render(block: ParsedAnswerBlock): string {
    TagOf(block.kind) + " " + block.text
  }

  /** An answer written in the prescribed form, one tagged paragraph per block, is read back block by block. */
  lemma {:induction false} AnswerRoundTrip(blocks: seq<ParsedAnswerBlock>)
    requires blocks != [] && forall i :: 0 <= i < |blocks| ==> IsTidy(Render(blocks[i])) && IsTidy(blocks[i].text)
    ensures Blocks(Join(Map(Render, blocks), PARAGRAPH_BREAK)) == blocks
  {
    hide IsTidy, Render, ParseAnswerBlock, Paragraphs;
    ParagraphsRoundTrip(Map(Render, blocks));
    forall i | 0 <= i < |blocks|
      ensures ParseAnswerBlock(Render(blocks[i])) == blocks[i]
    {
      RenderedBlockParses(blocks[i]);
    }
  }

  lemma {:induction false} RenderedBlockParses(block: ParsedAnswerBlock)
    requires IsTidy(block.text)
    ensures ParseAnswerBlock(Render(block)) == block
  {
    hide ParseAnswerBlock, TagOf;
    TaggedBlockRoundTrip(block.kind, " ", block.text);
  }

  // ----- the stricter validator that knows no blocks -----

  ghost predicate HasValidMarker(paragraph: string, supplied: nat) {
    var markers := FindMarkers(paragraph);
    exists i :: 0 <= i < |markers| && IsSupplied(markers[i], supplied)
  }

  ghost predicate IsFirstUncited(paragraphs: seq<string>, i: nat, supplied: nat)
    requires i < |paragraphs|
  {
    !HasValidMarker(paragraphs[i], supplied) && forall j :: 0 <= j < i ==> HasValidMarker(paragraphs[j], supplied)
  }

  datatype ParagraphError = NoCitationsSupplied | NoParagraphs | Uncited(paragraph: string)

  /** `assertEveryParagraphHasCitation`: passes exactly when every paragraph has some valid marker. */
  method AssertEveryParagraphHasCitation(answerText: string, supplied: nat) returns (error: Option<ParagraphError>)
    ensures error.None? <==> supplied > 0 && Paragraphs(answerText) != []
                             && forall i :: 0 <= i < |Paragraphs(answerText)| ==>
                                  HasValidMarker(Paragraphs(answerText)[i], supplied)
    ensures supplied == 0 ==> error == Some(NoCitationsSupplied)
    ensures supplied > 0 && Paragraphs(answerText) == [] ==> error == Some(NoParagraphs)
    ensures supplied > 0 && Paragraphs(answerText) != [] && error.Some? ==>
              exists i :: 0 <= i < |Paragraphs(answerText)| && IsFirstUncited(Paragraphs(answerText), i, supplied)
                          && error == Some(Uncited(Paragraphs(answerText)[i]))
  {
    hide FindMarkers;
    if supplied == 0 {
      return Some(NoCitationsSupplied);
    }
    var paragraphs := Paragraphs(answerText);
    if |paragraphs| == 0 {
      return Some(NoParagraphs);
    }
    for n := 0 to |paragraphs|
      invariant forall j :: 0 <= j < n ==> HasValidMarker(paragraphs[j], supplied)
    {
      var markers := FindCitationMarkers(paragraphs[n]);
      var valid := ValidMarkers(markers, supplied);
      SomeValidExactly(markers, supplied);
      if |valid| == 0 {
        assert IsFirstUncited(paragraphs, n, supplied);
        return Some(Uncited(paragraphs[n]));
      }
    }
    return None;
  }

  lemma {:induction false} SomeValidExactly(markers: seq<nat>, supplied: nat)
    ensures ValidMarkers(markers, supplied) != [] <==> exists i :: 0 <= i < |markers| && IsSupplied(markers[i], supplied)
  {
    if markers != [] {
      SomeValidExactly(markers[1..], supplied);
      assert forall i :: 0 < i < |markers| ==> markers[i] == markers[1..][i - 1];
      if i :| 0 <= i < |markers[1..]| && IsSupplied(markers[1..][i], supplied) {
        assert IsSupplied(markers[i + 1], supplied);
      }
      if IsSupplied(markers[0], supplied) {
        assert ValidMarkers(markers, supplied)[0] == markers[0];
      }
    }
  }

  /** A prefix that contains no opening bracket, except for a first one that does not open a marker. */
  ghost predicate OpensNoMarker(prefix: string) {
    && (prefix != "" && prefix[0] == '[' ==> |prefix| > 1 && prefix[1] != MARKER_OPENING[1])
    && forall k :: 0 < k < |prefix| ==> prefix[k] != '['
  }

  lemma {:induction false} OpeningSecond(text: string, p: nat)
    requires OpensAt(text, p)
    ensures text[p] == '[' && text[p + 1] == MARKER_OPENING[1]
  {
    var m := text[p..p + |MARKER_OPENING|];
    assert text[p] == m[0] && text[p + 1] == m[1];
  }

  lemma {:induction false} PrefixHasNoMarker(prefix: string, rest: string)
    requires OpensNoMarker(prefix)
    ensures FindMarkers(prefix + rest) == FindMarkers(rest)
  {
    hide OpensAt, Captured, ParseIndexList, ListEnd, IndexesAt;
    var t := prefix + rest;
    assert forall k :: 0 <= k < |prefix| ==> t[k] == prefix[k];
    ShiftedMarkers(prefix, rest, 0);
    if prefix != "" {
      if OpensAt(t, 0) {
        OpeningSecond(t, 0);
      }
      assert !OpensAt(t, 0);
      NoIndexesUnopened(t, 0);
      NothingOpens(t, 1, |prefix|);
    }
  }

  lemma {:induction false} TagsOpenNoMarker()
    ensures OpensNoMarker(TAG_CONCLUSION) && OpensNoMarker(TAG_EVIDENCE) && OpensNoMarker(TAG_ACTION)
  {
  }

  lemma {:induction false} BlankOpensNoMarker(blank: string)
    requires Blank(blank, 0, |blank|)
    ensures OpensNoMarker(blank)
  {
  }

  lemma {:induction false} UntaggedKeepsMarkers(paragraph: string, tag: string)
    requires tag <= paragraph && OpensNoMarker(tag)
    ensures FindMarkers(Untagged(paragraph, tag)) == FindMarkers(paragraph)
  {
    hide FindMarkers, IsSpace, RunEnd, OpensNoMarker;
    var k := RunEnd(paragraph, |tag|, IsSpace);
    var blank := paragraph[|tag|..k];
    assert paragraph == tag + (blank + paragraph[k..]);
    PrefixHasNoMarker(tag, blank + paragraph[k..]);
    BlankOpensNoMarker(blank);
    PrefixHasNoMarker(blank, paragraph[k..]);
  }

  /** Stripping a block's tag neither adds nor removes a marker. */
  lemma {:induction false} ParsingKeepsMarkers(paragraph: string)
    ensures FindMarkers(ParseAnswerBlock(paragraph).text) == FindMarkers(paragraph)
  {
    hide FindMarkers, IsSpace, Untagged, OpensNoMarker;
    TagsOpenNoMarker();
    if TAG_CONCLUSION <= paragraph {
      UntaggedKeepsMarkers(paragraph, TAG_CONCLUSION);
    } else if TAG_EVIDENCE <= paragraph {
      UntaggedKeepsMarkers(paragraph, TAG_EVIDENCE);
    } else if TAG_ACTION <= paragraph {
      UntaggedKeepsMarkers(paragraph, TAG_ACTION);
    }
  }

  // ----- what is accepted, from the paragraphs' own text -----

  /**
    * The tag a paragraph starts with decides its kind: without one it is evidence, like a paragraph with the evidence
    * tag, and keeps its text.
    */
  lemma {:induction false} KindIsDecidedByTag(paragraph: string)
    ensures ParseAnswerBlock(paragraph).kind == Conclusion <==> "[결론]" <= paragraph
    ensures ParseAnswerBlock(paragraph).kind == Action <==> "[확인사항]" <= paragraph
    ensures "[결론]" <= paragraph || "[근거]" <= paragraph || "[확인사항]" <= paragraph
            || ParseAnswerBlock(paragraph).text == paragraph
  {
    hide Untagged;
    forall kind, other | TagOf(kind) <= paragraph && TagOf(other) <= paragraph
      ensures kind == other
    {
      var rest := paragraph[|TagOf(kind)|..];
      assert paragraph == TagOf(kind) + rest;
      OnlyItsOwnTag(kind, other, rest);
    }
    assert TagOf(Conclusion) == "[결론]" && TagOf(Evidence) == "[근거]" && TagOf(Action) == "[확인사항]";
  }

  /** Every marker names a supplied citation, and there is one unless the paragraph is tagged as needing none. */
  ghost predicate IsGroundedParagraph(paragraph: string, supplied: nat) {
    var markers := FindMarkers(paragraph);
    && (forall i :: 0 <= i < |markers| ==> 1 <= markers[i] <= supplied)
    && ("[결론]" <= paragraph || "[확인사항]" <= paragraph || markers != [])
  }

  lemma {:induction false} GroundedExactly(paragraph: string, supplied: nat)
    ensures IsGrounded(ParseAnswerBlock(paragraph), supplied) <==> IsGroundedParagraph(paragraph, supplied)
  {
    hide FindMarkers, ParseAnswerBlock;
    ParsingKeepsMarkers(paragraph);
    KindIsDecidedByTag(paragraph);
  }

  /**
    * An answer is accepted exactly when citations were supplied, there is a paragraph, every marker of every paragraph
    * names one of them, and every paragraph that starts with neither the conclusion nor the action tag has a marker.
    */
  lemma {:induction false} AcceptedExactly(answerText: string, supplied: nat)
    ensures IsAccepted(answerText, supplied)
            <==> supplied > 0 && Paragraphs(answerText) != []
                 && forall p :: p in Paragraphs(answerText) ==> IsGroundedParagraph(p, supplied)
  {
    hide FindMarkers, ParseAnswerBlock, IsGrounded, IsGroundedParagraph, Paragraphs;
    var ps := Paragraphs(answerText);
    forall p
      ensures IsGrounded(ParseAnswerBlock(p), supplied) <==> IsGroundedParagraph(p, supplied)
    {
      GroundedExactly(p, supplied);
    }
    forall i | 0 <= i < |ps|
      ensures Blocks(answerText)[i] == ParseAnswerBlock(ps[i]) && ps[i] in ps
    {
    }
  }

  /** Which error a block causes, from its own markers. */
  lemma {:induction false} BlockErrorReasons(block: ParsedAnswerBlock, supplied: nat)
    ensures BlockError(block, supplied) == Some(UnknownCitationMarker(block))
            <==> exists i :: 0 <= i < |FindMarkers(block.text)| && !(1 <= FindMarkers(block.text)[i] <= supplied)
    ensures BlockError(block, supplied) == Some(MissingRequiredCitation(block))
            <==> block.kind == Evidence && FindMarkers(block.text) == []
  {
    hide FindMarkers;
    AllValidExactlyWhenNoneIsDropped(FindMarkers(block.text), supplied);
  }

  /**
    * For evidence and untagged paragraphs the block-aware validator is exactly as strict as the older one, plus the
    * rejection of every marker that names no supplied citation.
    */
  lemma {:induction false} EvidenceIsAsStrictAsBefore(paragraph: string, supplied: nat)
    requires !("[결론]" <= paragraph) && !("[확인사항]" <= paragraph)
    ensures IsGrounded(ParseAnswerBlock(paragraph), supplied)
            <==> HasValidMarker(paragraph, supplied)
                 && forall i :: 0 <= i < |FindMarkers(paragraph)| ==> IsSupplied(FindMarkers(paragraph)[i], supplied)
  {
    hide FindMarkers, ParseAnswerBlock;
    GroundedExactly(paragraph, supplied);
    var markers := FindMarkers(paragraph);
    if markers != [] && IsSupplied(markers[0], supplied) {
      assert HasValidMarker(paragraph, supplied);
    }
  }
}
