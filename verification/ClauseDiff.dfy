/** Line diff between a contract clause and a standard clause (src/domain/clauses/clause-diff.ts). */
module ClauseDiff {
  import opened JsText
  import opened Seqs

  datatype SegmentType = Same | Added | Removed
  datatype Segment = Segment(kind: SegmentType, text: string)

  // ----- splitting into lines -----

  /** `text.split(/\r?\n/)`. */
  function SplitAtLineBreaks(text: string): (parts: seq<string>)
    ensures |parts| > 0
    decreases |text|
  {
    var at := IndexOf(text, '\n', 0);
    if at == -1 then [text]
    else
      var end := if at > 0 && text[at - 1] == '\r' then at - 1 else at;
      [text[..end]] + SplitAtLineBreaks(text[at + 1..])
  }

  function SplitLines(text: string): seq<string> {
    TrimmedNonEmpty(SplitAtLineBreaks(text))
  }

  predicate IsLine(line: string) {
    line != "" && !IsSpace(line[0]) && !IsSpace(line[|line| - 1]) && '\n' !in line
  }

  lemma {:induction false} TrimmedNonEmptyLines(parts: seq<string>)
    requires forall p :: p in parts ==> '\n' !in p
    ensures forall l :: l in TrimmedNonEmpty(parts) ==> IsLine(l)
  {
    if parts != [] {
      assert parts[0] in parts;
      TrimmedNonEmptyLines(parts[1..]);
    }
  }

  lemma {:induction false} SplitPartsHaveNoBreak(text: string)
    ensures forall p :: p in SplitAtLineBreaks(text) ==> '\n' !in p
    decreases |text|
  {
    var at := IndexOf(text, '\n', 0);
    if at == -1 {
      assert text[0..] == text;
    } else {
      SplitPartsHaveNoBreak(text[at + 1..]);
      var end := if at > 0 && text[at - 1] == '\r' then at - 1 else at;
      assert forall c :: c in text[..end] ==> c in text[0..at];
    }
  }

  lemma {:induction false} LineIsKept(line: string)
    requires IsLine(line)
    ensures Kept(line) == [line]
  {
    TrimFixesTrimmed(line);
  }

  /** A text without line feeds is one line, trimmed, or none if nothing is left of it. */
  lemma {:induction false} TextWithoutBreak(text: string)
    requires '\n' !in text
    ensures SplitLines(text) == Kept(text)
  {
    hide Kept;
    assert text[0..] == text;
    TrimmedNonEmptyCons(text, []);
    assert [text] + [] == [text];
  }

  lemma {:induction false} FirstBreak(text: string, at: nat)
    requires at < |text| && text[at] == '\n' && forall k :: 0 <= k < at ==> text[k] != '\n'
    ensures SplitLines(text) == Kept(text[..at]) + SplitLines(text[at + 1..])
  {
    hide Kept, RunEnd, TrimmedNonEmpty;
    assert IndexOf(text, '\n', 0) == at;
    var end := if at > 0 && text[at - 1] == '\r' then at - 1 else at;
    TrimmedNonEmptyCons(text[..end], SplitAtLineBreaks(text[at + 1..]));
    if end < at {
      assert text[..at] == text[..end] + "\r";
      CarriageReturnIsTrimmed(text[..end]);
    }
  }

  lemma {:induction false} CarriageReturnIsTrimmed(s: string)
    ensures Kept(s + "\r") == Kept(s)
  {
    hide Trim;
    TrimDropsSpace(s, '\r');
  }

  /** Where two texts meet at a line break, their lines are those of the one followed by those of the other. */
  lemma {:induction false} SplitLinesOfConcat(s: string, u: string)
    ensures SplitLines(s + "\n" + u) == SplitLines(s) + SplitLines(u)
    decreases |s|
  {
    hide SplitLines, Kept, IndexOf;
    var t := s + "\n" + u;
    var at := IndexOf(s, '\n', 0);
    if at == -1 {
      TextWithoutBreak(s);
      FirstBreak(t, |s|);
      assert t[..|s|] == s && t[|s| + 1..] == u;
    } else {
      var rest := s[at + 1..];
      SplitLinesOfConcat(rest, u);
      FirstBreak(s, at);
      assert s == s[..at] + "\n" + rest;
      BreakThenRest(s[..at], rest + "\n" + u);
      assert t == s[..at] + "\n" + (rest + "\n" + u);
      Associative(Kept(s[..at]), SplitLines(rest), SplitLines(u));
    }
  }

  lemma {:induction false} BreakThenRest(line: string, rest: string)
    requires '\n' !in line
    ensures SplitLines(line + "\n" + rest) == Kept(line) + SplitLines(rest)
  {
    hide SplitLines, Kept;
    var t := line + "\n" + rest;
    FirstBreak(t, |line|);
    assert t[..|line|] == line && t[|line| + 1..] == rest;
  }

  /** A carriage return before the line feed makes no difference, nor does one at the end. */
  lemma {:induction false} SplitLinesOfCrLf(s: string, u: string)
    ensures SplitLines(s + "\r\n" + u) == SplitLines(s) + SplitLines(u) && SplitLines(s + "\r") == SplitLines(s)
  {
    hide SplitLines;
    assert s + "\r\n" + u == (s + "\r") + "\n" + u;
    SplitLinesOfConcat(s + "\r", u);
    TrailingCarriageReturn(s);
  }

  lemma {:induction false} TrailingCarriageReturn(s: string)
    ensures SplitLines(s + "\r") == SplitLines(s)
    decreases |s|
  {
    hide SplitLines, Kept, IndexOf;
    var at := IndexOf(s, '\n', 0);
    if at == -1 {
      TextWithoutBreak(s);
      TextWithoutBreak(s + "\r");
      CarriageReturnIsTrimmed(s);
    } else {
      var rest := s[at + 1..];
      assert s == s[..at] + "\n" + rest && s + "\r" == s[..at] + "\n" + (rest + "\r");
      BreakThenRest(s[..at], rest);
      BreakThenRest(s[..at], rest + "\r");
      TrailingCarriageReturn(rest);
    }
  }

  /** Every list of trimmed, non-empty lines is what some text splits into. */
  lemma {:induction false} SplitLinesRoundTrip(lines: seq<string>)
    requires forall l :: l in lines ==> IsLine(l)
    ensures SplitLines(Join(lines, "\n")) == lines
  {
    hide IsLine, SplitLines;
    if |lines| == 0 {
      EmptyTextHasNoLines();
    } else {
      assert lines[0] in lines;
      LineIsOneLine(lines[0]);
      if |lines| == 1 {
        assert lines == [lines[0]];
      } else {
        SplitLinesRoundTrip(lines[1..]);
        SplitLinesOfConcat(lines[0], Join(lines[1..], "\n"));
        assert lines == [lines[0]] + lines[1..];
      }
    }
  }

  lemma {:induction false} LineIsOneLine(line: string)
    requires IsLine(line)
    ensures SplitLines(line) == [line]
  {
    hide Kept, IsSpace;
    LineIsKept(line);
    TextWithoutBreak(line);
  }

  lemma {:induction false} EmptyTextHasNoLines()
    ensures SplitLines("") == []
  {
    TextWithoutBreak("");
  }

  /** What the splitter returns are lines, and joining them by line feeds and splitting again changes nothing. */
  lemma {:induction false} SplitLinesAreLines(text: string)
    ensures forall l :: l in SplitLines(text) ==> IsLine(l)
    ensures SplitLines(Join(SplitLines(text), "\n")) == SplitLines(text)
  {
    hide IsLine, SplitAtLineBreaks, TrimmedNonEmpty;
    SplitPartsHaveNoBreak(text);
    TrimmedNonEmptyLines(SplitAtLineBreaks(text));
    SplitLinesRoundTrip(SplitLines(text));
  }

  // ----- longest common subsequence -----

  function Max(x: nat, y: nat): nat {
    if x >= y then x else y
  }

  /** Length of the longest common subsequence, by the recurrence the table is filled with. */
  function Lcs(a: seq<string>, b: seq<string>): nat
    decreases |a| + |b|
  {
    if a == [] || b == [] then 0
    else if a[0] == b[0] then Lcs(a[1..], b[1..]) + 1
    else Max(Lcs(a[1..], b), Lcs(a, b[1..]))
  }

  ghost predicate IsCommonSubsequence(c: seq<string>, a: seq<string>, b: seq<string>) {
    IsSubsequence(c, a) && IsSubsequence(c, b)
  }

  lemma {:induction false} LcsIsUpperBound(c: seq<string>, a: seq<string>, b: seq<string>)
    requires IsCommonSubsequence(c, a, b)
    ensures |c| <= Lcs(a, b)
    decreases |a| + |b|
  {
    if c != [] {
      if a[0] == b[0] {
        if c[0] == a[0] {
          if !IsSubsequence(c[1..], a[1..]) { SubsequenceTail(c, a[1..]); }
          if !IsSubsequence(c[1..], b[1..]) { SubsequenceTail(c, b[1..]); }
          LcsIsUpperBound(c[1..], a[1..], b[1..]);
        } else {
          LcsIsUpperBound(c, a[1..], b[1..]);
        }
      } else if c[0] != a[0] {
        LcsIsUpperBound(c, a[1..], b);
      } else {
        LcsIsUpperBound(c, a, b[1..]);
      }
    }
  }

  // ----- the edit script -----

  function AllOf(kind: SegmentType, lines: seq<string>): (s: seq<Segment>)
    ensures |s| == |lines|
  {
    seq(|lines|, i requires 0 <= i < |lines| => Segment(kind, lines[i]))
  }

  /** The script the backtrack emits for the remaining standard lines `a` and clause lines `b`. */
  function EditScript(a: seq<string>, b: seq<string>): seq<Segment>
    decreases |a| + |b|
  {
    if a == [] then AllOf(Added, b)
    else if b == [] then AllOf(Removed, a)
    else if a[0] == b[0] then [Segment(Same, a[0])] + EditScript(a[1..], b[1..])
    else if Lcs(a[1..], b) >= Lcs(a, b[1..]) then [Segment(Removed, a[0])] + EditScript(a[1..], b)
    else [Segment(Added, b[0])] + EditScript(a, b[1..])
  }

  /** The texts of the segments whose kind is in `kinds`, in order. */
  function Keep(segments: seq<Segment>, kinds: set<SegmentType>): seq<string> {
    if segments == [] then []
    else (if segments[0].kind in kinds then [segments[0].text] else []) + Keep(segments[1..], kinds)
  }

  lemma {:induction false} KeepAllOf(kind: SegmentType, lines: seq<string>, kinds: set<SegmentType>)
    ensures Keep(AllOf(kind, lines), kinds) == if kind in kinds then lines else []
  {
    if lines != [] {
      KeepAllOf(kind, lines[1..], kinds);
      assert AllOf(kind, lines)[1..] == AllOf(kind, lines[1..]);
    }
  }

  lemma {:induction false} KeepCons(s: Segment, rest: seq<Segment>, kinds: set<SegmentType>)
    ensures Keep([s] + rest, kinds) == (if s.kind in kinds then [s.text] else []) + Keep(rest, kinds)
  {
    assert ([s] + rest)[1..] == rest;
  }

  /** The script turns the standard's lines into the clause's lines: each side can be read back from it. */
  lemma {:induction false} EditScriptKeepsBothSides(a: seq<string>, b: seq<string>)
    ensures Keep(EditScript(a, b), {Same, Removed}) == a
    ensures Keep(EditScript(a, b), {Same, Added}) == b
    decreases |a| + |b|
  {
    if a == [] {
      KeepAllOf(Added, b, {Same, Removed});
      KeepAllOf(Added, b, {Same, Added});
    } else if b == [] {
      KeepAllOf(Removed, a, {Same, Removed});
      KeepAllOf(Removed, a, {Same, Added});
    } else {
      var a', b' := if a[0] == b[0] || Lcs(a[1..], b) >= Lcs(a, b[1..]) then a[1..] else a,
                    if a[0] == b[0] || Lcs(a[1..], b) < Lcs(a, b[1..]) then b[1..] else b;
      EditScriptKeepsBothSides(a', b');
      KeepCons(EditScript(a, b)[0], EditScript(a', b'), {Same, Removed});
      KeepCons(EditScript(a, b)[0], EditScript(a', b'), {Same, Added});
    }
  }

  lemma {:induction false} EditScriptReachesLcs(a: seq<string>, b: seq<string>)
    ensures |Keep(EditScript(a, b), {Same})| == Lcs(a, b)
    decreases |a| + |b|
  {
    if a == [] {
      KeepAllOf(Added, b, {Same});
    } else if b == [] {
      KeepAllOf(Removed, a, {Same});
    } else {
      var a', b' := if a[0] == b[0] || Lcs(a[1..], b) >= Lcs(a, b[1..]) then a[1..] else a,
                    if a[0] == b[0] || Lcs(a[1..], b) < Lcs(a, b[1..]) then b[1..] else b;
      EditScriptReachesLcs(a', b');
      KeepCons(EditScript(a, b)[0], EditScript(a', b'), {Same});
    }
  }

  lemma {:induction false} KeepFewerIsSubsequence(
      segments: seq<Segment>, fewer: set<SegmentType>, more: set<SegmentType>)
    requires fewer <= more
    ensures IsSubsequence(Keep(segments, fewer), Keep(segments, more))
  {
    if segments != [] {
      KeepFewerIsSubsequence(segments[1..], fewer, more);
      var u := if segments[0].kind in fewer then [segments[0].text] else [];
      var v := if segments[0].kind in more then [segments[0].text] else [];
      SubsequenceOfItself(u);
      SubsequenceConcat(u, v, Keep(segments[1..], fewer), Keep(segments[1..], more));
    }
  }

  /** Any script that turns `a` into `b`, whoever produced it. */
  ghost predicate IsScript(segments: seq<Segment>, a: seq<string>, b: seq<string>) {
    Keep(segments, {Same, Removed}) == a && Keep(segments, {Same, Added}) == b
  }

  lemma {:induction false} ScriptLength(s: seq<Segment>)
    ensures |s| == |Keep(s, {Same, Removed})| + |Keep(s, {Same, Added})| - |Keep(s, {Same})|
  {
    if s != [] {
      ScriptLength(s[1..]);
      assert s == [s[0]] + s[1..];
      KeepCons(s[0], s[1..], {Same, Removed});
      KeepCons(s[0], s[1..], {Same, Added});
      KeepCons(s[0], s[1..], {Same});
      match s[0].kind
      case Same =>
      case Added =>
      case Removed =>
    }
  }

  /**
    * Optimality: the emitted script is a script from `a` to `b`, its unchanged lines are a longest common
    * subsequence, and no script from `a` to `b` has fewer segments.
    */
  lemma {:induction false} EditScriptIsOptimal(a: seq<string>, b: seq<string>)
    ensures IsScript(EditScript(a, b), a, b)
    ensures IsCommonSubsequence(Keep(EditScript(a, b), {Same}), a, b)
    ensures forall c :: IsCommonSubsequence(c, a, b) ==> |c| <= |Keep(EditScript(a, b), {Same})|
    ensures forall s :: IsScript(s, a, b) ==> |EditScript(a, b)| <= |s|
  {
    var script := EditScript(a, b);
    EditScriptKeepsBothSides(a, b);
    EditScriptReachesLcs(a, b);
    KeepFewerIsSubsequence(script, {Same}, {Same, Removed});
    KeepFewerIsSubsequence(script, {Same}, {Same, Added});
    forall c | IsCommonSubsequence(c, a, b)
      ensures |c| <= |Keep(script, {Same})|
    {
      LcsIsUpperBound(c, a, b);
    }
    ScriptLength(script);
    forall s | IsScript(s, a, b)
      ensures |script| <= |s|
    {
      KeepFewerIsSubsequence(s, {Same}, {Same, Removed});
      KeepFewerIsSubsequence(s, {Same}, {Same, Added});
      LcsIsUpperBound(Keep(s, {Same}), a, b);
      ScriptLength(s);
    }
  }

  /** Which of several shortest scripts: unchanged lines come as early as possible, and removals before additions. */
  function Rank(kind: SegmentType): nat {
    match kind
    case Same => 0
    case Removed => 1
    case Added => 2
  }

  lemma {:induction false} FirstSegment(s: seq<Segment>, a: seq<string>, b: seq<string>)
    requires IsScript(s, a, b) && s != []
    ensures s[0].kind != Added ==> a != [] && s[0].text == a[0]
    ensures s[0].kind != Removed ==> b != [] && s[0].text == b[0]
    ensures IsScript(s[1..], if s[0].kind == Added then a else a[1..], if s[0].kind == Removed then b else b[1..])
  {
  }

  lemma {:induction false} ShortestIsLongest(s: seq<Segment>, a: seq<string>, b: seq<string>)
    requires IsScript(s, a, b)
    ensures |s| >= |EditScript(a, b)| == |a| + |b| - Lcs(a, b)
  {
    hide EditScript, Keep, Lcs;
    EditScriptIsOptimal(a, b);
    EditScriptReachesLcs(a, b);
    ScriptLength(EditScript(a, b));
  }

  /**
    * Which shortest script is emitted: where it first differs from another one, its segment ranks before the other's.
    * With EditScriptIsOptimal this determines the script.
    */
  lemma {:induction false} EditScriptIsFirst(a: seq<string>, b: seq<string>, s: seq<Segment>, k: nat)
    requires IsScript(s, a, b) && |s| == |EditScript(a, b)|
    requires k < |s| && s[..k] == EditScript(a, b)[..k] && s[k] != EditScript(a, b)[k]
    ensures Rank(EditScript(a, b)[k].kind) < Rank(s[k].kind)
    decreases k
  {
    hide Lcs, EditScript, Keep, IsScript, Rank;
    var e := EditScript(a, b);
    EditScriptKeepsBothSides(a, b);
    FirstSegment(s, a, b);
    FirstSegment(e, a, b);
    if k == 0 {
      FirstChoice(a, b, s);
    } else {
      assert s[0] == s[..k][0] == e[..k][0] == e[0];
      var a', b' := if e[0].kind == Added then a else a[1..], if e[0].kind == Removed then b else b[1..];
      RestOfScript(a, b);
      assert s[1..][..k - 1] == s[..k][1..] && e[1..][..k - 1] == e[..k][1..];
      EditScriptIsFirst(a', b', s[1..], k - 1);
    }
  }

  lemma {:induction false} RestOfScript(a: seq<string>, b: seq<string>)
    requires EditScript(a, b) != []
    ensures var e := EditScript(a, b);
            e[1..] == EditScript(if e[0].kind == Added then a else a[1..], if e[0].kind == Removed then b else b[1..])
  {
    hide Lcs;
    if a == [] {
      assert AllOf(Added, b)[1..] == AllOf(Added, b[1..]);
    } else if b == [] {
      assert AllOf(Removed, a)[1..] == AllOf(Removed, a[1..]);
    }
  }

  lemma {:induction false} FirstChoice(a: seq<string>, b: seq<string>, s: seq<Segment>)
    requires IsScript(s, a, b) && s != [] && |s| == |EditScript(a, b)| && s[0] != EditScript(a, b)[0]
    ensures Rank(EditScript(a, b)[0].kind) < Rank(s[0].kind)
  {
    hide Keep;
    FirstSegment(s, a, b);
    if s[0].kind == Removed {
      if b != [] && a[0] != b[0] {
        ShortestIsLongest(s[1..], a[1..], b);
        ShortestIsLongest(s, a, b);
      }
    }
  }

  // ----- the code -----

  ghost predicate RowDone(lcs: array2<nat>, a: seq<string>, b: seq<string>, i: nat, from: nat)
    requires lcs.Length0 == |a| + 1 && lcs.Length1 == |b| + 1 && i <= |a|
    reads lcs
  {
    forall q :: from <= q <= |b| ==> lcs[i, q] == Lcs(a[i..], b[q..])
  }

  ghost predicate TableDone(lcs: array2<nat>, a: seq<string>, b: seq<string>)
    reads lcs
  {
    lcs.Length0 == |a| + 1 && lcs.Length1 == |b| + 1 && forall i :: 0 <= i <= |a| ==> RowDone(lcs, a, b, i, 0)
  }

  lemma {:induction false} LcsStep(a: seq<string>, b: seq<string>, i: nat, j: nat)
    requires i < |a| && j < |b|
    ensures Lcs(a[i..], b[j..]) == if a[i] == b[j] then Lcs(a[i + 1..], b[j + 1..]) + 1
                                   else Max(Lcs(a[i + 1..], b[j..]), Lcs(a[i..], b[j + 1..]))
  {
    assert a[i..][1..] == a[i + 1..] && b[j..][1..] == b[j + 1..];
  }

  lemma {:induction false} NothingInCommon(a: seq<string>, b: seq<string>)
    ensures Lcs(a, b[|b|..]) == 0
  {
  }

  method FillRow(lcs: array2<nat>, a: seq<string>, b: seq<string>, i: nat)
    requires lcs.Length0 == |a| + 1 && lcs.Length1 == |b| + 1 && i < |a|
    requires RowDone(lcs, a, b, i + 1, 0) && lcs[i, |b|] == 0
    modifies lcs
    ensures RowDone(lcs, a, b, i, 0)
    ensures forall p, q :: 0 <= p <= |a| && 0 <= q <= |b| && p != i ==> lcs[p, q] == old(lcs[p, q])
  {
    hide Lcs;
    var j := |b| - 1;
    NothingInCommon(a[i..], b);
    while j >= 0
      invariant -1 <= j < |b|
      invariant RowDone(lcs, a, b, i + 1, 0) && RowDone(lcs, a, b, i, j + 1)
      invariant forall p, q :: 0 <= p <= |a| && 0 <= q <= |b| && p != i ==> lcs[p, q] == old(lcs[p, q])
    {
      LcsStep(a, b, i, j);
      lcs[i, j] := if a[i] == b[j] then lcs[i + 1, j + 1] + 1 else Max(lcs[i + 1, j], lcs[i, j + 1]);
      j := j - 1;
    }
  }

  method FillTable(a: seq<string>, b: seq<string>) returns (lcs: array2<nat>)
    ensures fresh(lcs) && lcs.Length0 == |a| + 1 && lcs.Length1 == |b| + 1 && TableDone(lcs, a, b)
  {
    lcs := new nat[|a| + 1, |b| + 1]((i, j) => 0);
    var i := |a| - 1;
    while i >= 0
      invariant -1 <= i < |a|
      invariant forall p, q :: 0 <= p <= i && 0 <= q <= |b| ==> lcs[p, q] == 0
      invariant forall p :: i < p <= |a| ==> RowDone(lcs, a, b, p, 0)
    {
      label before:
      FillRow(lcs, a, b, i);
      forall p | i < p <= |a|
        ensures RowDone(lcs, a, b, p, 0)
      {
        assert old@before(RowDone(lcs, a, b, p, 0));
      }
      i := i - 1;
    }
  }

  lemma {:induction false} EditScriptStep(a: seq<string>, b: seq<string>, i: nat, j: nat)
    requires i < |a| && j < |b|
    ensures EditScript(a[i..], b[j..]) ==
            if a[i] == b[j] then [Segment(Same, a[i])] + EditScript(a[i + 1..], b[j + 1..])
            else if Lcs(a[i + 1..], b[j..]) >= Lcs(a[i..], b[j + 1..])
            then [Segment(Removed, a[i])] + EditScript(a[i + 1..], b[j..])
            else [Segment(Added, b[j])] + EditScript(a[i..], b[j + 1..])
  {
    assert a[i..][1..] == a[i + 1..] && b[j..][1..] == b[j + 1..];
  }

  lemma {:induction false} EditScriptEnd(a: seq<string>, b: seq<string>, i: nat, j: nat)
    requires i <= |a| && j <= |b| && (i == |a| || j == |b|)
    ensures EditScript(a[i..], b[j..]) == AllOf(Removed, a[i..]) + AllOf(Added, b[j..])
  {
  }

  /** The two closing loops of the backtrack: what is left of one side is emitted with one kind. */
  method EmitRest(segments: seq<Segment>, kind: SegmentType, lines: seq<string>, from: nat) returns (r: seq<Segment>)
    requires from <= |lines|
    ensures r == segments + AllOf(kind, lines[from..])
  {
    r := segments;
    var i := from;
    while i < |lines|
      invariant from <= i <= |lines|
      invariant r == segments + AllOf(kind, lines[from..i])
    {
      r := r + [Segment(kind, lines[i])];
      i := i + 1;
    }
    assert lines[from..i] == lines[from..];
  }

  method DiffLines(clauseText: string, standardText: string) returns (segments: seq<Segment>)
    ensures segments == EditScript(SplitLines(standardText), SplitLines(clauseText))
  {
    segments := DiffLineLists(SplitLines(standardText), SplitLines(clauseText));
  }

  lemma {:induction false} CellsAre(lcs: array2<nat>, a: seq<string>, b: seq<string>, i: nat, j: nat)
    requires TableDone(lcs, a, b) && i < |a| && j < |b|
    ensures lcs[i + 1, j] == Lcs(a[i + 1..], b[j..]) && lcs[i, j + 1] == Lcs(a[i..], b[j + 1..])
  {
    hide Lcs;
    assert RowDone(lcs, a, b, i, 0) && RowDone(lcs, a, b, i + 1, 0);
  }

  lemma {:induction false} Regroup(segments: seq<Segment>, s: Segment, rest: seq<Segment>)
    ensures (segments + [s]) + rest == segments + ([s] + rest)
  {
  }

  method DiffLineLists(a: seq<string>, b: seq<string>) returns (segments: seq<Segment>)
    ensures segments == EditScript(a, b)
  {
    hide EditScript, Lcs, RowDone, TableDone;
    var lcs := FillTable(a, b);
    segments := [];
    var i, j := 0, 0;
    assert a[0..] == a && b[0..] == b;
    while i < |a| && j < |b|
      invariant 0 <= i <= |a| && 0 <= j <= |b|
      invariant lcs.Length0 == |a| + 1 && lcs.Length1 == |b| + 1 && TableDone(lcs, a, b)
      invariant segments + EditScript(a[i..], b[j..]) == EditScript(a, b)
      decreases |a| - i + |b| - j
    {
      EditScriptStep(a, b, i, j);
      CellsAre(lcs, a, b, i, j);
      if a[i] == b[j] {
        Regroup(segments, Segment(Same, a[i]), EditScript(a[i + 1..], b[j + 1..]));
        segments := segments + [Segment(Same, a[i])];
        i, j := i + 1, j + 1;
      } else if lcs[i + 1, j] >= lcs[i, j + 1] {
        Regroup(segments, Segment(Removed, a[i]), EditScript(a[i + 1..], b[j..]));
        segments := segments + [Segment(Removed, a[i])];
        i := i + 1;
      } else {
        Regroup(segments, Segment(Added, b[j]), EditScript(a[i..], b[j + 1..]));
        segments := segments + [Segment(Added, b[j])];
        j := j + 1;
      }
    }
    EditScriptEnd(a, b, i, j);
    segments := EmitRest(segments, Removed, a, i);
    segments := EmitRest(segments, Added, b, j);
  }

  // ----- similarity -----

  function SameCount(segments: seq<Segment>): nat {
    |Keep(segments, {Same})|
  }

  /** The shared lines as a share of all lines, for `m` and `n` lines of which `same` are shared. */
  function Ratio(m: nat, n: nat, same: nat): real {
    if m == 0 && n == 0 then 1.0
    else
      var total := m + n - same;
      if total == 0 then 1.0 else same as real / total as real
  }

  function Similarity(a: seq<string>, b: seq<string>): real {
    Ratio(|a|, |b|, SameCount(EditScript(a, b)))
  }

  method ComputeLineSimilarity(clauseText: string, standardText: string) returns (ratio: real)
    ensures ratio == Similarity(SplitLines(standardText), SplitLines(clauseText))
  {
    hide SplitLines, EditScript, Keep;
    var a := SplitLines(standardText);
    var b := SplitLines(clauseText);
    if |a| == 0 && |b| == 0 {
      return 1.0;
    }
    var segments := DiffLines(clauseText, standardText);
    var sameCount := SameCount(segments);
    var total := |a| + |b| - sameCount;
    ratio := if total == 0 then 1.0 else sameCount as real / total as real;
  }

  lemma {:induction false} RatioRange(m: nat, n: nat, same: nat)
    requires same <= m && same <= n
    ensures 0.0 <= Ratio(m, n, same) <= 1.0
    ensures Ratio(m, n, same) == 1.0 <==> m == n == same
    ensures Ratio(m, n, same) == 0.0 <==> same == 0 && m + n > 0
  {
    var total := m + n - same;
    if total > 0 {
      QuotientRange(same as real, total as real);
    }
  }

  lemma {:induction false} QuotientRange(x: real, y: real)
    requires 0.0 <= x <= y && y > 0.0
    ensures 0.0 <= x / y <= 1.0 && (x / y == 1.0 <==> x == y) && (x / y == 0.0 <==> x == 0.0)
  {
  }

  lemma {:induction false} SameCountBounds(a: seq<string>, b: seq<string>)
    ensures SameCount(EditScript(a, b)) <= |a| && SameCount(EditScript(a, b)) <= |b|
    ensures SameCount(EditScript(a, b)) == |a| == |b| ==> a == b
  {
    EditScriptIsOptimal(a, b);
    SubsequenceLength(Keep(EditScript(a, b), {Same}), a);
    SubsequenceLength(Keep(EditScript(a, b), {Same}), b);
  }

  lemma {:induction false} SimilarityInUnitInterval(a: seq<string>, b: seq<string>)
    ensures 0.0 <= Similarity(a, b) <= 1.0
  {
    SameCountBounds(a, b);
    RatioRange(|a|, |b|, SameCount(EditScript(a, b)));
  }

  /** Any longest common subsequence, whoever found it. */
  ghost predicate IsLongest(c: seq<string>, a: seq<string>, b: seq<string>) {
    IsCommonSubsequence(c, a, b) && forall d :: IsCommonSubsequence(d, a, b) ==> |d| <= |c|
  }

  /** Any shortest script. */
  ghost predicate IsShortest(s: seq<Segment>, a: seq<string>, b: seq<string>) {
    IsScript(s, a, b) && forall r :: IsScript(r, a, b) ==> |s| <= |r|
  }

  /**
    * What the similarity is: of all lines, those of a longest common subsequence counted once, the share that lies in
    * it; or the share of unchanged segments in any shortest script.
    */
  lemma {:induction false} SimilarityIsSharedPart(
      a: seq<string>, b: seq<string>, c: seq<string>, s: seq<Segment>)
    requires IsLongest(c, a, b) && IsShortest(s, a, b)
    ensures a != [] || b != [] ==> Similarity(a, b) * (|a| + |b| - |c|) as real == |c| as real
    ensures a != [] || b != [] ==> Similarity(a, b) * |s| as real == |Keep(s, {Same})| as real
    ensures a == [] && b == [] ==> Similarity(a, b) == 1.0
  {
    hide EditScript, Keep, IsLongest, IsShortest, Ratio;
    LongestLength(c, a, b);
    ShortestLength(s, a, b);
    SameCountBounds(a, b);
    if a != [] || b != [] {
      RatioTimesTotal(|a|, |b|, |c|);
    } else {
      NothingIsEqual();
    }
  }

  lemma {:induction false} LongestLength(c: seq<string>, a: seq<string>, b: seq<string>)
    requires IsLongest(c, a, b)
    ensures |c| == SameCount(EditScript(a, b))
  {
    hide EditScript, Keep, IsCommonSubsequence;
    EditScriptIsOptimal(a, b);
  }

  lemma {:induction false} ShortestLength(s: seq<Segment>, a: seq<string>, b: seq<string>)
    requires IsShortest(s, a, b)
    ensures |Keep(s, {Same})| == SameCount(EditScript(a, b)) && |s| == |a| + |b| - SameCount(EditScript(a, b))
  {
    hide EditScript, Keep, IsCommonSubsequence;
    EditScriptIsOptimal(a, b);
    ScriptLength(s);
    ScriptLength(EditScript(a, b));
  }

  lemma {:induction false} NothingIsEqual()
    ensures Ratio(0, 0, 0) == 1.0
  {
  }

  lemma {:induction false} RatioTimesTotal(m: nat, n: nat, same: nat)
    requires same <= m && same <= n && m + n > 0
    ensures Ratio(m, n, same) * (m + n - same) as real == same as real
  {
  }

  /** The number of unchanged lines does not depend on which text is called the standard. */
  lemma {:induction false} SameCountIsSymmetric(a: seq<string>, b: seq<string>)
    ensures SameCount(EditScript(a, b)) == SameCount(EditScript(b, a))
  {
    var u, v := Keep(EditScript(a, b), {Same}), Keep(EditScript(b, a), {Same});
    EditScriptIsOptimal(a, b);
    EditScriptIsOptimal(b, a);
    assert IsCommonSubsequence(v, a, b) && IsCommonSubsequence(u, b, a);
  }

  lemma {:induction false} SimilarityIsSymmetric(a: seq<string>, b: seq<string>)
    ensures Similarity(a, b) == Similarity(b, a)
  {
    SameCountIsSymmetric(a, b);
  }

  lemma {:induction false} SimilarityIsOneExactlyForEqualLines(a: seq<string>, b: seq<string>)
    ensures Similarity(a, b) == 1.0 <==> a == b
  {
    SameCountBounds(a, b);
    RatioRange(|a|, |b|, SameCount(EditScript(a, b)));
    if a == b {
      EditScriptIsOptimal(a, a);
      SubsequenceOfItself(a);
      assert IsCommonSubsequence(a, a, a);
    }
  }

  lemma {:induction false} SimilarityIsZeroExactlyForDisjointLines(a: seq<string>, b: seq<string>)
    ensures Similarity(a, b) == 0.0 <==> !(a == [] && b == []) && forall x :: x in a ==> x !in b
  {
    SameCountBounds(a, b);
    RatioRange(|a|, |b|, SameCount(EditScript(a, b)));
    SomeLineKeptExactlyIfShared(a, b);
  }

  lemma {:induction false} SomeLineKeptExactlyIfShared(a: seq<string>, b: seq<string>)
    ensures SameCount(EditScript(a, b)) > 0 <==> exists x :: x in a && x in b
  {
    var common := Keep(EditScript(a, b), {Same});
    EditScriptIsOptimal(a, b);
    if common != [] {
      SubsequenceElements(common, a);
      SubsequenceElements(common, b);
      assert common[0] in a && common[0] in b;
    }
    if x :| x in a && x in b {
      SingletonSubsequence(x, a);
      SingletonSubsequence(x, b);
      assert IsCommonSubsequence([x], a, b);
    }
  }

  lemma {:induction false} SingletonSubsequence(x: string, ys: seq<string>)
    requires x in ys
    ensures IsSubsequence([x], ys)
  {
    if ys[0] != x {
      SingletonSubsequence(x, ys[1..]);
    } else {
      assert [x][1..] == [];
    }
  }
}
