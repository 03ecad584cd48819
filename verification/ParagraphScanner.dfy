/** The paragraph scanner of the document chunker (src/domain/ai/document-chunker.ts, splitIntoParagraphs). */
module ParagraphScanner {
  import opened JsText
  import opened Seqs

  datatype RawParagraph = RawParagraph(text: string, startOffset: nat, endOffset: nat, headingContext: Option<string>)

  /** Recognises a depth-0 article line and renders its heading (clause-number-patterns.ts); left abstract. */
  type HeadingDetector = string -> Option<string>

  // ----- what a paragraph is -----

  /** A line of `t[lo..hi]` between two of its line feeds is empty or whitespace only. */
  ghost predicate HasBlankLine(t: string, lo: nat, hi: nat)
    requires hi <= |t|
  {
    exists a, b :: lo <= a < b < hi && t[a] == '\n' && t[b] == '\n' && Blank(t, a, b)
  }

  ghost predicate HasTwoLineFeeds(t: string, lo: nat, hi: nat)
    requires hi <= |t|
  {
    exists a, b :: lo <= a < b < hi && t[a] == '\n' && t[b] == '\n'
  }

  /** An exact slice of the document that starts and ends in non-whitespace and contains no blank line. */
  ghost predicate IsBlock(t: string, p: RawParagraph) {
    && p.startOffset < p.endOffset <= |t|
    && p.text == t[p.startOffset..p.endOffset]
    && !IsSpace(t[p.startOffset]) && !IsSpace(t[p.endOffset - 1])
    && !HasBlankLine(t, p.startOffset, p.endOffset)
  }

  function EndBefore(ps: seq<RawParagraph>, i: nat): nat
    requires i <= |ps|
  {
    if i == 0 then 0 else ps[i - 1].endOffset
  }

  function FirstLine(text: string): string {
    text[..RunEnd(text, 0, c => c != '\n')]
  }

  /** The heading in force after a paragraph; `heading` recognises a depth-0 article line. */
  function HeadingAfter(heading: HeadingDetector, text: string, current: Option<string>): Option<string> {
    if heading(FirstLine(text)).Some? then heading(FirstLine(text)) else current
  }

  function HeadingBefore(ps: seq<RawParagraph>, i: nat): Option<string>
    requires i <= |ps|
  {
    if i == 0 then None else ps[i - 1].headingContext
  }

  /** Paragraph `i` is a block, whitespace with a blank line separates it from the one before, and its heading is right. */
  ghost predicate ParagraphFits(t: string, heading: HeadingDetector, ps: seq<RawParagraph>, i: nat)
    requires i < |ps|
  {
    && IsBlock(t, ps[i])
    && EndBefore(ps, i) <= ps[i].startOffset && Blank(t, EndBefore(ps, i), ps[i].startOffset)
    && (i > 0 ==> HasTwoLineFeeds(t, EndBefore(ps, i), ps[i].startOffset))
    && ps[i].headingContext == HeadingAfter(heading, ps[i].text, HeadingBefore(ps, i))
  }

  /** `ps` are the maximal blank-line-free blocks of `t[..upTo]`, each with the latest article heading. */
  ghost predicate Scanned(t: string, heading: HeadingDetector, ps: seq<RawParagraph>, upTo: nat)
    requires upTo <= |t|
  {
    && (forall i :: 0 <= i < |ps| ==> ParagraphFits(t, heading, ps, i))
    && EndBefore(ps, |ps|) <= upTo && Blank(t, EndBefore(ps, |ps|), upTo)
  }

  ghost predicate IsParagraphing(t: string, heading: HeadingDetector, ps: seq<RawParagraph>) {
    Scanned(t, heading, ps, |t|)
  }

  // ----- the paragraphing of a document is unique -----

  lemma {:induction false} NextParagraphIsSame(
      t: string, heading: HeadingDetector, ps: seq<RawParagraph>, qs: seq<RawParagraph>, i: nat)
    requires IsParagraphing(t, heading, ps) && IsParagraphing(t, heading, qs)
    requires i < |ps| && i <= |qs| && ps[..i] == qs[..i]
    ensures i < |qs| && ps[i] == qs[i]
  {
    assert EndBefore(ps, i) == EndBefore(qs, i) && HeadingBefore(ps, i) == HeadingBefore(qs, i) by {
      if i > 0 {
        assert ps[i - 1] == ps[..i][i - 1] == qs[..i][i - 1] == qs[i - 1];
      }
    }
    hide IsSpace, HasBlankLine, HasTwoLineFeeds;
    assert ParagraphFits(t, heading, ps, i);
    assert i < |qs|;
    assert ParagraphFits(t, heading, qs, i);
    assert ps[i].startOffset == qs[i].startOffset;
    BlockCannotEndEarlier(t, heading, ps, qs, i);
    BlockCannotEndEarlier(t, heading, qs, ps, i);
  }

  lemma {:induction false} BlockCannotEndEarlier(
      t: string, heading: HeadingDetector, ps: seq<RawParagraph>, qs: seq<RawParagraph>, i: nat)
    requires IsParagraphing(t, heading, ps) && IsParagraphing(t, heading, qs)
    requires i < |ps| && i < |qs| && ps[i].startOffset == qs[i].startOffset
    ensures ps[i].endOffset >= qs[i].endOffset
  {
    hide IsSpace, HasBlankLine, HasTwoLineFeeds;
    var e := ps[i].endOffset;
    assert ParagraphFits(t, heading, ps, i) && ParagraphFits(t, heading, qs, i);
    assert e == EndBefore(ps, i + 1);
    if e < qs[i].endOffset {
      assert i + 1 < |ps|;
      assert ParagraphFits(t, heading, ps, i + 1);
      BlankLineBetween(t, qs[i].startOffset, e, ps[i + 1].startOffset, qs[i].endOffset);
    }
  }

  lemma {:induction false} BlankLineBetween(t: string, lo: nat, from: nat, to: nat, hi: nat)
    requires lo <= from <= to <= hi <= |t| && Blank(t, from, to) && HasTwoLineFeeds(t, from, to)
    ensures HasBlankLine(t, lo, hi)
  {
    hide IsSpace;
    var a, b :| from <= a < b < to && t[a] == '\n' && t[b] == '\n';
    assert Blank(t, a, b);
  }

  /** A document has at most one paragraphing, so the scanner's contract determines its result. */
  lemma {:induction false} ParagraphingIsUnique(
      t: string, heading: HeadingDetector, ps: seq<RawParagraph>, qs: seq<RawParagraph>)
    requires IsParagraphing(t, heading, ps) && IsParagraphing(t, heading, qs)
    ensures ps == qs
  {
    var i := 0;
    while i < |ps|
      invariant 0 <= i <= |ps| && i <= |qs| && ps[..i] == qs[..i]
    {
      NextParagraphIsSame(t, heading, ps, qs, i);
      i := i + 1;
    }
    if i < |qs| {
      NextParagraphIsSame(t, heading, qs, ps, i);
    }
  }

  // ----- which heading a paragraph carries -----

  /** `line` is the text before the first line feed of `text`, or all of it. */
  ghost predicate IsFirstLine(line: string, text: string) {
    line <= text && '\n' !in line && (line == text || text[|line|] == '\n')
  }

  /** The recogniser's answer for the first line of a paragraph. */
  ghost predicate Recognised(heading: HeadingDetector, p: RawParagraph, h: Option<string>) {
    exists line :: IsFirstLine(line, p.text) && heading(line) == h
  }

  /** `h` was recognised in the last of the paragraphs up to `i` in which anything was, and is None if in none of them. */
  ghost predicate IsLatestHeading(heading: HeadingDetector, ps: seq<RawParagraph>, i: nat, h: Option<string>)
    requires i < |ps|
  {
    if h.None? then forall j :: 0 <= j <= i ==> Recognised(heading, ps[j], None)
    else exists j :: 0 <= j <= i && IsSourceOfHeading(heading, ps, j, i, h)
  }

  ghost predicate IsSourceOfHeading(heading: HeadingDetector, ps: seq<RawParagraph>, j: nat, i: nat, h: Option<string>)
    requires j <= i < |ps|
  {
    Recognised(heading, ps[j], h) && forall k :: j < k <= i ==> Recognised(heading, ps[k], None)
  }

  lemma {:induction false} FirstLineIs(text: string, line: string)
    ensures IsFirstLine(line, text) <==> line == FirstLine(text)
  {
    var e := RunEnd(text, 0, c => c != '\n');
    assert forall k :: 0 <= k < e ==> text[..e][k] == text[k];
    if IsFirstLine(line, text) {
      assert forall k :: 0 <= k < |line| ==> text[k] == line[k] && line[k] in line;
      assert |line| == e;
    }
  }

  lemma {:induction false} RecognisedIs(heading: HeadingDetector, p: RawParagraph, h: Option<string>)
    ensures Recognised(heading, p, h) <==> heading(FirstLine(p.text)) == h
  {
    hide FirstLine, IsFirstLine;
    FirstLineIs(p.text, FirstLine(p.text));
    if Recognised(heading, p, h) {
      var line :| IsFirstLine(line, p.text) && heading(line) == h;
      FirstLineIs(p.text, line);
    }
  }

  /** Every paragraph carries the latest article heading: an article's heading holds until the next one is recognised. */
  lemma {:induction false} HeadingIsLatest(t: string, heading: HeadingDetector, ps: seq<RawParagraph>, i: nat)
    requires IsParagraphing(t, heading, ps) && i < |ps|
    ensures IsLatestHeading(heading, ps, i, ps[i].headingContext)
    decreases i
  {
    hide IsBlock, FirstLine, Recognised, Blank, HasTwoLineFeeds;
    assert ParagraphFits(t, heading, ps, i);
    var found := heading(FirstLine(ps[i].text));
    RecognisedIs(heading, ps[i], found);
    if found.Some? {
      assert IsSourceOfHeading(heading, ps, i, i, found);
    } else if i > 0 {
      HeadingIsLatest(t, heading, ps, i - 1);
      var h := ps[i - 1].headingContext;
      if h.Some? {
        var j :| 0 <= j <= i - 1 && IsSourceOfHeading(heading, ps, j, i - 1, h);
        assert IsSourceOfHeading(heading, ps, j, i, h);
      }
    }
  }

  /** There is only one such heading. */
  lemma {:induction false} LatestHeadingIsUnique(
      heading: HeadingDetector, ps: seq<RawParagraph>, i: nat, h: Option<string>, g: Option<string>)
    requires i < |ps| && IsLatestHeading(heading, ps, i, h) && IsLatestHeading(heading, ps, i, g)
    ensures h == g
  {
    hide Recognised;
    forall k, x | 0 <= k <= i && Recognised(heading, ps[k], x)
      ensures x == heading(FirstLine(ps[k].text))
    {
      RecognisedIs(heading, ps[k], x);
    }
  }

  // ----- the code -----

  /**
    * The inner loop: the start of the first blank line after the paragraph's own first line, or the end of the
    * document.
    */
  method FindParagraphEnd(text: string, pos: nat) returns (paragraphEnd: nat)
    requires pos < |text|
    ensures pos < paragraphEnd <= |text|
    ensures !HasBlankLine(text, pos, paragraphEnd)
    ensures paragraphEnd < |text| ==> text[paragraphEnd - 1] == '\n'
    ensures paragraphEnd < |text| ==> var l := RunEnd(text, paragraphEnd, c => c != '\n'); Blank(text, paragraphEnd, l)
  {
    hide IsSpace, HasBlankLine, Trim, Blank;
    var blankLineAt := -1;
    var searchPos := pos;
    NoLineNoBlankLine(text, pos);
    while searchPos < |text|
      invariant pos <= searchPos <= |text|
      invariant searchPos > pos ==> text[searchPos - 1] == '\n'
      invariant !HasBlankLine(text, pos, searchPos)
      invariant blankLineAt == -1
      decreases |text| - searchPos
    {
      var lineEnd := IndexOf(text, '\n', searchPos);
      var stop := if lineEnd == -1 then |text| else lineEnd;
      var line := text[searchPos..stop];
      LineStop(text, searchPos, stop, lineEnd);
      if Trim(line) == "" && searchPos > pos {
        TrimsToNothing(text, searchPos, stop);
        blankLineAt := searchPos;
        break;
      }
      NoBlankLineYet(text, pos, searchPos, stop);
      if lineEnd == -1 { return |text|; }
      searchPos := lineEnd + 1;
    }
    paragraphEnd := if blankLineAt == -1 then |text| else blankLineAt;
  }

  lemma {:induction false} NoLineNoBlankLine(text: string, pos: nat)
    requires pos <= |text|
    ensures !HasBlankLine(text, pos, pos)
  {
  }

  lemma {:induction false} TrimsToNothing(text: string, from: nat, to: nat)
    requires from <= to <= |text| && Trim(text[from..to]) == ""
    ensures Blank(text, from, to)
  {
    hide IsSpace;
    assert forall k :: from <= k < to ==> text[k] == text[from..to][k - from];
  }

  lemma {:induction false} LineStop(text: string, searchPos: nat, stop: nat, lineEnd: int)
    requires searchPos < |text| && lineEnd == IndexOf(text, '\n', searchPos)
    requires stop == if lineEnd == -1 then |text| else lineEnd
    ensures searchPos <= stop <= |text| && stop == RunEnd(text, searchPos, c => c != '\n')
    ensures forall k :: searchPos <= k < stop ==> text[k] != '\n'
  {
  }

  lemma {:induction false} NoBlankLineYet(text: string, pos: nat, searchPos: nat, stop: nat)
    requires pos <= searchPos <= stop <= |text|
    requires searchPos > pos ==> text[searchPos - 1] == '\n'
    requires !HasBlankLine(text, pos, searchPos)
    requires forall k :: searchPos <= k < stop ==> text[k] != '\n'
    requires searchPos > pos ==> Trim(text[searchPos..stop]) != ""
    ensures !HasBlankLine(text, pos, if stop < |text| then stop + 1 else stop)
  {
    hide IsSpace, Trim;
    var hi := if stop < |text| then stop + 1 else stop;
    var line := text[searchPos..stop];
    assert forall k :: 0 <= k < |line| ==> line[k] == text[searchPos + k];
    forall a, b | pos <= a < b < hi && text[a] == '\n' && text[b] == '\n'
      ensures !Blank(text, a, b)
    {
      if b == stop {
        assert a < searchPos;
        var k :| 0 <= k < |line| && !IsSpace(line[k]);
        assert !IsSpace(text[searchPos + k]);
      }
    }
  }

  /** Where the trimmed text of a slice lies in the whole document. */
  lemma {:induction false} TrimmedSlice(t: string, pos: nat, end: nat)
    requires pos <= end <= |t|
    ensures var raw := t[pos..end];
            var start := pos + |raw| - |TrimStart(raw)|;
            && (Trim(raw) == "" <==> Blank(t, pos, end))
            && (Trim(raw) != "" ==>
                  && start == RunEnd(t, pos, IsSpace) && start < start + |Trim(raw)| <= end
                  && Trim(raw) == t[start..start + |Trim(raw)|]
                  && Blank(t, pos, start) && Blank(t, start + |Trim(raw)|, end)
                  && !IsSpace(t[start]) && !IsSpace(t[start + |Trim(raw)| - 1]))
  {
    hide IsSpace, RunEnd, RunStart, Trim, Blank;
    var raw := t[pos..end];
    BlankSlice(t, pos, end, 0, |raw|);
    var lead := RunEnd(raw, 0, IsSpace);
    var trimmed := Trim(raw);
    if trimmed != "" {
      TrimParts(raw);
      BlankSlice(t, pos, end, 0, lead);
      BlankSlice(t, pos, end, lead + |trimmed|, |raw|);
      SliceOfSlice(t, pos, end, lead, lead + |trimmed|);
      assert trimmed == t[pos + lead..pos + lead + |trimmed|];
      assert trimmed[0] == t[pos + lead] && trimmed[|trimmed| - 1] == t[pos + lead + |trimmed| - 1];
      RunEndInSlice(t, pos, end);
    }
  }

  lemma {:induction false} BlankSlice(t: string, pos: nat, end: nat, lo: nat, hi: nat)
    requires pos <= end <= |t| && lo <= hi <= end - pos
    ensures Blank(t[pos..end], lo, hi) <==> Blank(t, pos + lo, pos + hi)
  {
    hide IsSpace;
    var raw := t[pos..end];
    assert forall k :: 0 <= k < |raw| ==> raw[k] == t[pos + k];
    assert forall k :: pos <= k < end ==> t[k] == raw[k - pos];
  }

  lemma {:induction false} SliceOfSlice(t: string, pos: nat, end: nat, a: nat, b: nat)
    requires pos <= end <= |t| && a <= b <= end - pos
    ensures t[pos..end][a..b] == t[pos + a..pos + b]
  {
    assert forall k :: 0 <= k < b - a ==> t[pos..end][a..b][k] == t[pos + a..pos + b][k];
  }

  lemma {:induction false} TrimParts(raw: string)
    requires Trim(raw) != ""
    ensures var lead := RunEnd(raw, 0, IsSpace);
            && lead + |Trim(raw)| <= |raw| && Trim(raw) == raw[lead..lead + |Trim(raw)|]
            && Blank(raw, 0, lead) && Blank(raw, lead + |Trim(raw)|, |raw|)
            && !IsSpace(Trim(raw)[0]) && !IsSpace(Trim(raw)[|Trim(raw)| - 1])
  {
    hide IsSpace, RunStart;
  }

  lemma {:induction false} RunEndInSlice(t: string, pos: nat, end: nat)
    requires pos <= end <= |t| && RunEnd(t[pos..end], 0, IsSpace) < end - pos
    ensures RunEnd(t, pos, IsSpace) == pos + RunEnd(t[pos..end], 0, IsSpace)
  {
    hide IsSpace, RunEnd;
    var raw := t[pos..end];
    var lead := RunEnd(raw, 0, IsSpace);
    assert forall k :: pos <= k <= pos + lead ==> t[k] == raw[k - pos];
    RunEndIs(t, pos, pos + lead, IsSpace);
  }

  lemma {:induction false} SkipBlank(t: string, i: nat, j: nat)
    requires i <= j <= |t| && Blank(t, i, j)
    ensures RunEnd(t, i, IsSpace) == RunEnd(t, j, IsSpace)
  {
  }

  /** A paragraph end that is followed by more text leaves two line feeds between the paragraph and that text. */
  lemma {:induction false} BlankLineFollows(t: string, lastEnd: nat, end: nat)
    requires 0 < lastEnd <= end < |t| && Blank(t, lastEnd, end) && t[end - 1] == '\n' && !IsSpace(t[lastEnd - 1])
    requires Blank(t, end, RunEnd(t, end, c => c != '\n'))
    ensures var next := RunEnd(t, end, IsSpace); next < |t| ==> HasTwoLineFeeds(t, lastEnd, next)
  {
    var stop := RunEnd(t, end, c => c != '\n');
    var next := RunEnd(t, end, IsSpace);
    if next < |t| {
      SkipBlank(t, end, stop);
      assert stop < |t| && t[stop] == '\n';
      assert stop < next;
      assert t[end - 1] == '\n' && t[stop] == '\n';
    }
  }

  lemma {:induction false} ScannedOneMore(
      t: string, heading: HeadingDetector, ps: seq<RawParagraph>, p: RawParagraph, pos: nat, end: nat)
    requires pos <= end <= |t| && Scanned(t, heading, ps, pos)
    requires IsBlock(t, p) && pos <= p.startOffset && p.endOffset <= end
    requires Blank(t, pos, p.startOffset) && Blank(t, p.endOffset, end)
    requires p.headingContext == HeadingAfter(heading, p.text, HeadingBefore(ps, |ps|))
    requires ps != [] ==> HasTwoLineFeeds(t, EndBefore(ps, |ps|), p.startOffset)
    ensures Scanned(t, heading, ps + [p], end)
  {
    forall i | 0 <= i < |ps|
      ensures ParagraphFits(t, heading, ps + [p], i)
    {
      FitsWhenExtended(t, heading, ps, p, i);
    }
    BlankConcat(t, EndBefore(ps, |ps|), pos, p.startOffset);
    assert ParagraphFits(t, heading, ps + [p], |ps|);
  }

  lemma {:induction false} NoBlankLineInside(t: string, lo: nat, hi: nat, from: nat, to: nat)
    requires lo <= from <= to <= hi <= |t| && !HasBlankLine(t, lo, hi)
    ensures !HasBlankLine(t, from, to)
  {
  }

  lemma {:induction false} FitsWhenExtended(
      t: string, heading: HeadingDetector, ps: seq<RawParagraph>, p: RawParagraph, i: nat)
    requires i < |ps| && ParagraphFits(t, heading, ps, i)
    ensures ParagraphFits(t, heading, ps + [p], i)
  {
    assert EndBefore(ps + [p], i) == EndBefore(ps, i) && HeadingBefore(ps + [p], i) == HeadingBefore(ps, i);
  }

  lemma {:induction false} BlankConcat(t: string, i: nat, j: nat, k: nat)
    requires i <= j <= k <= |t| && Blank(t, i, j) && Blank(t, j, k)
    ensures Blank(t, i, k)
  {
  }

  lemma {:induction false} ScannedFurther(
      t: string, heading: HeadingDetector, ps: seq<RawParagraph>, pos: nat, end: nat)
    requires pos <= end <= |t| && Scanned(t, heading, ps, pos) && Blank(t, pos, end)
    ensures Scanned(t, heading, ps, end)
  {
  }

  ghost predicate SeparatedFromRest(t: string, ps: seq<RawParagraph>, pos: nat)
    requires pos <= |t|
  {
    var next := RunEnd(t, pos, IsSpace);
    ps != [] && next < |t| ==> HasTwoLineFeeds(t, EndBefore(ps, |ps|), next)
  }

  /** The invariant of the scanner: everything before `pos` is scanned. */
  ghost predicate ScanState(t: string, heading: HeadingDetector, ps: seq<RawParagraph>, pos: nat)
    requires pos <= |t|
  {
    Scanned(t, heading, ps, pos) && SeparatedFromRest(t, ps, pos)
  }

  lemma {:induction false} ScanStart(t: string, heading: HeadingDetector)
    ensures ScanState(t, heading, [], 0)
  {
  }

  lemma {:induction false} SkippedBlank(t: string, heading: HeadingDetector, ps: seq<RawParagraph>, pos: nat, end: nat)
    requires pos <= end <= |t| && ScanState(t, heading, ps, pos) && Blank(t, pos, end)
    ensures ScanState(t, heading, ps, end)
  {
    ScannedFurther(t, heading, ps, pos, end);
    SkipBlank(t, pos, end);
  }

  lemma {:induction false} ParagraphEmitted(
      t: string, heading: HeadingDetector, ps: seq<RawParagraph>, p: RawParagraph, pos: nat, end: nat)
    requires pos < end <= |t| && ScanState(t, heading, ps, pos)
    requires !HasBlankLine(t, pos, end)
    requires end < |t| ==> t[end - 1] == '\n' && Blank(t, end, RunEnd(t, end, c => c != '\n'))
    requires p.text == Trim(t[pos..end]) && p.text != ""
    requires p.startOffset == pos + |t[pos..end]| - |TrimStart(t[pos..end])| && p.endOffset == p.startOffset + |p.text|
    requires p.headingContext == HeadingAfter(heading, p.text, HeadingBefore(ps, |ps|))
    ensures ScanState(t, heading, ps + [p], end)
  {
    hide IsSpace, RunEnd, Trim, TrimStart, ParagraphFits, HeadingAfter, HasTwoLineFeeds, HasBlankLine;
    TrimmedSlice(t, pos, end);
    NoBlankLineInside(t, pos, end, p.startOffset, p.endOffset);
    ScannedOneMore(t, heading, ps, p, pos, end);
    if end < |t| {
      BlankLineFollows(t, p.endOffset, end);
    }
  }

  method SplitIntoParagraphs(text: string, heading: HeadingDetector) returns (paragraphs: seq<RawParagraph>)
    ensures IsParagraphing(text, heading, paragraphs)
  {
    hide IsSpace, RunEnd, Trim, TrimStart, Scanned, SeparatedFromRest, HeadingAfter, HasBlankLine;
    paragraphs := [];
    var currentHeading := None;
    var pos := 0;
    ScanStart(text, heading);
    while pos < |text|
      invariant 0 <= pos <= |text|
      invariant ScanState(text, heading, paragraphs, pos)
      invariant currentHeading == HeadingBefore(paragraphs, |paragraphs|)
      decreases |text| - pos
    {
      var paragraphEnd := FindParagraphEnd(text, pos);
      var rawParagraph := text[pos..paragraphEnd];
      var trimmedStart := |rawParagraph| - |TrimStart(rawParagraph)|;
      var trimmedText := Trim(rawParagraph);
      TrimmedSlice(text, pos, paragraphEnd);
      if |trimmedText| > 0 {
        var startOffset := pos + trimmedStart;
        var endOffset := startOffset + |trimmedText|;
        currentHeading := HeadingAfter(heading, trimmedText, currentHeading);
        var paragraph := RawParagraph(trimmedText, startOffset, endOffset, currentHeading);
        ParagraphEmitted(text, heading, paragraphs, paragraph, pos, paragraphEnd);
        paragraphs := paragraphs + [paragraph];
      } else {
        SkippedBlank(text, heading, paragraphs, pos, paragraphEnd);
      }
      pos := paragraphEnd;
      while pos < |text| && text[pos] == '\n'
        invariant paragraphEnd <= pos <= |text|
        invariant ScanState(text, heading, paragraphs, pos)
      {
        LineFeedIsSpace(text, pos);
        SkippedBlank(text, heading, paragraphs, pos, pos + 1);
        pos := pos + 1;
      }
    }
  }

  lemma {:induction false} LineFeedIsSpace(t: string, pos: nat)
    requires pos < |t| && t[pos] == '\n'
    ensures Blank(t, pos, pos + 1)
  {
  }
}
