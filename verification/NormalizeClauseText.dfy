/** Search normalization of clause text (src/domain/clauses/normalize-clause-text.ts). */
module NormalizeClauseText {
  import opened JsText

  // ----- the replacement steps -----

  function StraightQuote(c: char): char {
    if c == '\U{2018}' || c == '\U{2019}' then '\''
    else if c == '\U{201C}' || c == '\U{201D}' then '"'
    else c
  }

  /** A character-by-character replacement. */
  function MapText(f: char -> char, s: string): (r: string)
    ensures |r| == |s| && forall i :: 0 <= i < |s| ==> r[i] == f(s[i])
  {
    seq(|s|, i requires 0 <= i < |s| => f(s[i]))
  }

  /** `replace(/\r\n?/g, "\n")`. */
  function UnixLineBreaks(s: string): string {
    if s == "" then ""
    else if s[0] != '\r' then [s[0]] + UnixLineBreaks(s[1..])
    else if |s| >= 2 && s[1] == '\n' then "\n" + UnixLineBreaks(s[2..])
    else "\n" + UnixLineBreaks(s[1..])
  }

  /** Every longest run of characters satisfying `p` becomes the single character `c`. */
  function CollapseRuns(s: string, p: char -> bool, c: char): string
    decreases |s|
  {
    if s == "" then ""
    else if p(s[0]) then [c] + CollapseRuns(s[RunEnd(s, 0, p)..], p, c)
    else [s[0]] + CollapseRuns(s[1..], p, c)
  }

  predicate IsBlankChar(c: char) {
    c == ' ' || c == '\t'
  }

  predicate IsLineFeed(c: char) {
    c == '\n'
  }

  /** The chain of the code, for a lower-casing that maps characters one to one; Unicode NFC is taken as done. */
  function Normalize(text: string, lower: char -> char): string {
    var unix := UnixLineBreaks(MapText(StraightQuote, text));
    MapText(lower, Trim(CollapseRuns(CollapseRuns(unix, IsBlankChar, ' '), IsLineFeed, '\n')))
  }

  /** Whitespace and the characters the other steps replace. */
  predicate IsSpecial(c: char) {
    IsSpace(c) || StraightQuote(c) != c
  }

  /** Lower-casing settles in one step and neither changes nor produces special characters. */
  ghost predicate IsSimpleLowering(lower: char -> char) {
    forall c :: lower(lower(c)) == lower(c) && (IsSpecial(c) || IsSpecial(lower(c)) ==> lower(c) == c)
  }

  // ----- normal texts -----

  ghost predicate NoAdjacent(s: string, p: char -> bool) {
    forall i :: 0 <= i < |s| - 1 ==> !(p(s[i]) && p(s[i + 1]))
  }

  predicate IsReplaced(c: char) {
    c == '\r' || c == '\t' || StraightQuote(c) != c
  }

  /** A text that every step leaves as it is. */
  ghost predicate IsNormal(s: string, lower: char -> char) {
    && (forall i :: 0 <= i < |s| ==> !IsReplaced(s[i]) && lower(s[i]) == s[i])
    && NoAdjacent(s, IsBlankChar) && NoAdjacent(s, IsLineFeed)
    && (s != "" ==> !IsSpace(s[0]) && !IsSpace(s[|s| - 1]))
  }

  lemma {:induction false} UnixIsUnix(s: string)
    ensures forall i :: 0 <= i < |UnixLineBreaks(s)| ==>
              UnixLineBreaks(s)[i] != '\r' && (UnixLineBreaks(s)[i] == '\n' || UnixLineBreaks(s)[i] in s)
  {
    if s != "" {
      UnixIsUnix(s[1..]);
      if |s| >= 2 {
        UnixIsUnix(s[2..]);
      }
    }
  }

  lemma {:induction false} UnixStays(s: string)
    requires forall i :: 0 <= i < |s| ==> s[i] != '\r'
    ensures UnixLineBreaks(s) == s
  {
    if s != "" {
      UnixStays(s[1..]);
      assert s == [s[0]] + s[1..];
    }
  }

  /** What is left to collapse after the first character or run. */
  function AfterFirst(s: string, p: char -> bool): (rest: string)
    requires s != ""
    ensures |rest| < |s|
    ensures p(s[0]) && rest != "" ==> !p(rest[0])
    ensures exists k :: 0 < k <= |s| && rest == s[k..] && (p(s[0]) || k == 1)
  {
    if p(s[0]) then s[RunEnd(s, 0, p)..] else s[1..]
  }

  lemma {:induction false} CollapseStep(s: string, p: char -> bool, c: char)
    requires s != ""
    ensures CollapseRuns(s, p, c) == [if p(s[0]) then c else s[0]] + CollapseRuns(AfterFirst(s, p), p, c)
  {
  }

  lemma {:induction false} CollapsedElements(s: string, p: char -> bool, c: char)
    ensures var r := CollapseRuns(s, p, c);
            && (forall i :: 0 <= i < |r| ==> r[i] == c || (r[i] in s && !p(r[i])))
            && (r == "" <==> s == "") && (s != "" ==> r[0] == if p(s[0]) then c else s[0])
    decreases |s|
  {
    hide CollapseRuns, AfterFirst;
    if s != "" {
      CollapseStep(s, p, c);
      CollapsedElements(AfterFirst(s, p), p, c);
    } else {
      NothingCollapses(p, c);
    }
  }

  lemma {:induction false} NothingCollapses(p: char -> bool, c: char)
    ensures CollapseRuns("", p, c) == ""
  {
  }

  /** No two neighbours satisfy `p` any more, and neighbours satisfying another property `q` do not come about. */
  lemma {:induction false} CollapsedNeighbours(s: string, p: char -> bool, c: char, q: char -> bool)
    requires p(c) && (forall d :: !(p(d) && q(d))) && NoAdjacent(s, q)
    ensures NoAdjacent(CollapseRuns(s, p, c), p) && NoAdjacent(CollapseRuns(s, p, c), q)
    decreases |s|
  {
    hide CollapseRuns, AfterFirst;
    if s != "" {
      var rest := AfterFirst(s, p);
      var k :| 0 < k <= |s| && rest == s[k..] && (p(s[0]) || k == 1);
      CollapseStep(s, p, c);
      CollapsedElements(rest, p, c);
      CollapsedNeighbours(rest, p, c, q);
    } else {
      NothingCollapses(p, c);
    }
  }

  lemma {:induction false} Collapsed(s: string, p: char -> bool, c: char, q: char -> bool)
    requires p(c) && (forall d :: !(p(d) && q(d))) && NoAdjacent(s, q)
    ensures var r := CollapseRuns(s, p, c);
            NoAdjacent(r, p) && NoAdjacent(r, q) && forall i :: 0 <= i < |r| ==> r[i] == c || (r[i] in s && !p(r[i]))
  {
    CollapsedElements(s, p, c);
    CollapsedNeighbours(s, p, c, q);
  }

  lemma {:induction false} CollapseStays(s: string, p: char -> bool, c: char)
    requires NoAdjacent(s, p) && forall i :: 0 <= i < |s| && p(s[i]) ==> s[i] == c
    ensures CollapseRuns(s, p, c) == s
    decreases |s|
  {
    if s != "" {
      CollapseStays(s[1..], p, c);
      if p(s[0]) {
        assert RunEnd(s, 0, p) == 1;
      }
      assert s == [s[0]] + s[1..];
    }
  }

  /** The text before trimming: clean characters, single blanks, single line feeds. */
  ghost predicate IsClean(s: string) {
    && (forall i :: 0 <= i < |s| ==> !IsReplaced(s[i]))
    && NoAdjacent(s, IsBlankChar) && NoAdjacent(s, IsLineFeed)
  }

  function Clean(text: string): string {
    CollapseRuns(CollapseRuns(UnixLineBreaks(MapText(StraightQuote, text)), IsBlankChar, ' '), IsLineFeed, '\n')
  }

  lemma {:induction false} QuotesAreStraight(text: string)
    ensures forall c :: c in MapText(StraightQuote, text) ==> StraightQuote(c) == c
  {
  }

  lemma {:induction false} CleanIsClean(text: string)
    ensures IsClean(Clean(text))
  {
    hide UnixLineBreaks, CollapseRuns, MapText;
    var straight := MapText(StraightQuote, text);
    var unix := UnixLineBreaks(straight);
    QuotesAreStraight(text);
    UnixIsUnix(straight);
    assert forall i :: 0 <= i < |unix| ==> unix[i] != '\r' && StraightQuote(unix[i]) == unix[i];
    var never := (c: char) => false;
    Collapsed(unix, IsBlankChar, ' ', never);
    var single := CollapseRuns(unix, IsBlankChar, ' ');
    assert forall i :: 0 <= i < |single| ==> !IsReplaced(single[i]);
    Collapsed(single, IsLineFeed, '\n', IsBlankChar);
  }

  lemma {:induction false} SliceNoAdjacent(s: string, a: nat, b: nat, p: char -> bool)
    requires a <= b <= |s| && NoAdjacent(s, p)
    ensures NoAdjacent(s[a..b], p)
  {
  }

  lemma {:induction false} TrimmedIsClean(s: string)
    requires IsClean(s)
    ensures IsClean(Trim(s))
  {
    hide IsReplaced, IsBlankChar, IsLineFeed, IsSpace, Trim, NoAdjacent;
    if Trim(s) != "" {
      var a := RunEnd(s, 0, IsSpace);
      var b := a + |Trim(s)|;
      assert Trim(s) == s[a..b];
      SliceNoAdjacent(s, a, b, IsBlankChar);
      SliceNoAdjacent(s, a, b, IsLineFeed);
    } else {
      EmptyIsClean();
    }
  }

  lemma {:induction false} EmptyIsClean()
    ensures IsClean("")
  {
  }

  lemma {:induction false} LoweredIsNormal(s: string, lower: char -> char)
    requires IsSimpleLowering(lower) && IsClean(s)
    requires s != "" ==> !IsSpace(s[0]) && !IsSpace(s[|s| - 1])
    ensures IsNormal(MapText(lower, s), lower)
  {
    hide IsSpace, StraightQuote;
    assert IsSpace(' ') && IsSpace('\t') && IsSpace('\n') && IsSpace('\r') by { BlanksAreSpace(); }
    var r := MapText(lower, s);
    forall i | 0 <= i < |s|
      ensures IsBlankChar(r[i]) ==> r[i] == s[i]
      ensures IsLineFeed(r[i]) ==> r[i] == s[i]
      ensures IsReplaced(r[i]) ==> r[i] == s[i]
      ensures IsSpace(r[i]) ==> r[i] == s[i]
    {
      assert IsSpecial(r[i]) ==> r[i] == s[i];
    }
  }

  lemma {:induction false} BlanksAreSpace()
    ensures IsSpace(' ') && IsSpace('\t') && IsSpace('\n') && IsSpace('\r')
  {
  }

  lemma {:induction false} NormalStays(s: string, lower: char -> char)
    requires IsNormal(s, lower)
    ensures Normalize(s, lower) == s
  {
    hide UnixLineBreaks, CollapseRuns, IsSpace;
    assert MapText(StraightQuote, s) == s;
    UnixStays(s);
    CollapseStays(s, IsBlankChar, ' ');
    CollapseStays(s, IsLineFeed, '\n');
    TrimFixesTrimmed(s);
    assert MapText(lower, s) == s;
  }

  /** Normalizing yields a normal text, and the normal texts are exactly those it leaves as they are. */
  lemma {:induction false} NormalizeYieldsNormal(text: string, lower: char -> char)
    requires IsSimpleLowering(lower)
    ensures IsNormal(Normalize(text, lower), lower)
    ensures Normalize(text, lower) == text <==> IsNormal(text, lower)
  {
    hide Clean, IsSpace, IsClean, IsSimpleLowering;
    CleanIsClean(text);
    TrimmedIsClean(Clean(text));
    LoweredIsNormal(Trim(Clean(text)), lower);
    NormalizeIs(text, lower);
    if IsNormal(text, lower) {
      NormalStays(text, lower);
    }
  }

  lemma {:induction false} NormalizeIs(text: string, lower: char -> char)
    ensures Normalize(text, lower) == MapText(lower, Trim(Clean(text)))
  {
  }

  lemma {:induction false} NormalizeIsIdempotent(text: string, lower: char -> char)
    requires IsSimpleLowering(lower)
    ensures Normalize(Normalize(text, lower), lower) == Normalize(text, lower)
  {
    hide Normalize, IsNormal;
    NormalizeYieldsNormal(text, lower);
    NormalizeYieldsNormal(Normalize(text, lower), lower);
  }

  // ----- nothing but whitespace is lost -----

  function NonSpace(s: string): string {
    if s == "" then "" else (if IsSpace(s[0]) then "" else [s[0]]) + NonSpace(s[1..])
  }

  lemma {:induction false} NonSpaceConcat(s: string, t: string)
    ensures NonSpace(s + t) == NonSpace(s) + NonSpace(t)
  {
    hide IsSpace;
    if s == "" {
      assert s + t == t;
    } else {
      NonSpaceConcat(s[1..], t);
      assert (s + t)[1..] == s[1..] + t && (s + t)[0] == s[0];
      var first := if IsSpace(s[0]) then "" else [s[0]];
      assert first + (NonSpace(s[1..]) + NonSpace(t)) == (first + NonSpace(s[1..])) + NonSpace(t);
    }
  }

  lemma {:induction false} NonSpaceOfBlank(s: string)
    requires Blank(s, 0, |s|)
    ensures NonSpace(s) == ""
  {
    hide IsSpace;
    if s != "" {
      NonSpaceOfBlank(s[1..]);
    }
  }

  lemma {:induction false} NonSpaceOfMapped(f: char -> char, s: string)
    requires forall c :: IsSpace(f(c)) <==> IsSpace(c)
    ensures NonSpace(MapText(f, s)) == MapText(f, NonSpace(s))
  {
    hide IsSpace;
    if s != "" {
      NonSpaceOfMapped(f, s[1..]);
      assert MapText(f, s)[1..] == MapText(f, s[1..]);
      assert MapText(f, [s[0]] + NonSpace(s[1..])) == [f(s[0])] + MapText(f, NonSpace(s[1..]));
    }
  }

  lemma {:induction false} NonSpaceOfUnix(s: string)
    ensures NonSpace(UnixLineBreaks(s)) == NonSpace(s)
  {
    hide IsSpace;
    BlanksAreSpace();
    if s != "" {
      var r := UnixLineBreaks(s);
      NonSpaceOfUnix(s[1..]);
      if |s| >= 2 {
        NonSpaceOfUnix(s[2..]);
        assert s[1..][1..] == s[2..];
      }
      assert r[1..] == UnixLineBreaks(s[1..]) || (|s| >= 2 && r[1..] == UnixLineBreaks(s[2..]));
    }
  }

  lemma {:induction false} NonSpaceOfCollapsed(s: string, p: char -> bool, c: char)
    requires IsSpace(c) && forall d :: p(d) ==> IsSpace(d)
    ensures NonSpace(CollapseRuns(s, p, c)) == NonSpace(s)
    decreases |s|
  {
    hide IsSpace, CollapseRuns;
    if s == "" {
      NothingCollapses(p, c);
    } else {
      CollapseStep(s, p, c);
      var rest := AfterFirst(s, p);
      NonSpaceOfCollapsed(rest, p, c);
      var k := |s| - |rest|;
      var tail := CollapseRuns(rest, p, c);
      assert s == s[..k] + rest;
      NonSpaceConcat(s[..k], rest);
      if p(s[0]) {
        NonSpaceOfBlank(s[..k]);
        assert ([c] + tail)[1..] == tail;
      } else {
        assert s[..k] == [s[0]] && rest == s[1..] && ([s[0]] + tail)[1..] == tail;
      }
    }
  }

  lemma {:induction false} NonSpaceOfTrimmed(s: string)
    ensures NonSpace(Trim(s)) == NonSpace(s)
  {
    hide IsSpace, RunEnd, RunStart, NonSpace, Trim;
    if Trim(s) == "" {
      NonSpaceOfBlank(s);
      NonSpaceOfBlank("");
    } else {
      var a := RunEnd(s, 0, IsSpace);
      var b := a + |Trim(s)|;
      assert s == s[..a] + (s[a..b] + s[b..]);
      NonSpaceConcat(s[..a], s[a..b] + s[b..]);
      NonSpaceConcat(s[a..b], s[b..]);
      NonSpaceOfBlank(s[..a]);
      NonSpaceOfBlank(s[b..]);
    }
  }

  /** The characters other than whitespace come through in order, straightened and lower-cased. */
  lemma {:induction false} NormalizeKeepsText(text: string, lower: char -> char)
    requires IsSimpleLowering(lower)
    ensures NonSpace(Normalize(text, lower)) == MapText(lower, MapText(StraightQuote, NonSpace(text)))
  {
    hide IsSpace, UnixLineBreaks, CollapseRuns, NonSpace, Trim;
    BlanksAreSpace();
    QuotesKeepSpace();
    assert forall c :: IsSpace(lower(c)) <==> IsSpace(c) by {
      assert forall c :: IsSpecial(c) || IsSpecial(lower(c)) ==> lower(c) == c;
    }
    var straight := MapText(StraightQuote, text);
    var unix := UnixLineBreaks(straight);
    var single := CollapseRuns(unix, IsBlankChar, ' ');
    var clean := CollapseRuns(single, IsLineFeed, '\n');
    NonSpaceOfMapped(StraightQuote, text);
    NonSpaceOfUnix(straight);
    NonSpaceOfCollapsed(unix, IsBlankChar, ' ');
    NonSpaceOfCollapsed(single, IsLineFeed, '\n');
    NonSpaceOfTrimmed(clean);
    NonSpaceOfMapped(lower, Trim(clean));
  }

  lemma {:induction false} QuotesKeepSpace()
    ensures forall c :: IsSpace(StraightQuote(c)) <==> IsSpace(c)
  {
  }

  // ----- what becomes of the whitespace between two characters -----

  /** How many characters make up the first character or line break. */
  function FirstWidth(s: string): (n: nat)
    requires s != ""
    ensures 1 <= n <= 2 && n <= |s|
  {
    if |s| >= 2 && s[0] == '\r' && s[1] == '\n' then 2 else 1
  }

  lemma {:induction false} UnixStep(s: string)
    requires s != ""
    ensures UnixLineBreaks(s) == [if s[0] == '\r' then '\n' else s[0]] + UnixLineBreaks(s[FirstWidth(s)..])
  {
  }

  lemma {:induction false} UnixOfNothing()
    ensures UnixLineBreaks("") == ""
  {
  }

  lemma {:induction false} UnixAround(s: string, v: char, r: string)
    requires v != '\r' && v != '\n'
    ensures UnixLineBreaks(s + [v] + r) == UnixLineBreaks(s) + [v] + UnixLineBreaks(r)
  {
    hide UnixLineBreaks;
    var t := s + [v] + r;
    UnixStep(t);
    if s == "" {
      UnixOfNothing();
      assert t == [v] + r && t[1..] == r;
    } else {
      UnixStep(s);
      var n := FirstWidth(s);
      assert t[0] == s[0] && t[1] == if |s| >= 2 then s[1] else v;
      assert t[n..] == s[n..] + [v] + r;
      UnixAround(s[n..], v, r);
    }
  }

  lemma {:induction false} CollapseAround(s: string, v: char, r: string, p: char -> bool, c: char)
    requires !p(v)
    ensures CollapseRuns(s + [v] + r, p, c) == CollapseRuns(s, p, c) + [v] + CollapseRuns(r, p, c)
    decreases |s|
  {
    hide CollapseRuns, AfterFirst;
    var t := s + [v] + r;
    CollapseStep(t, p, c);
    RestAround(s, v, r, p);
    if s == "" {
      NothingCollapses(p, c);
    } else {
      CollapseStep(s, p, c);
      CollapseAround(AfterFirst(s, p), v, r, p, c);
    }
  }

  lemma {:induction false} RestAround(s: string, v: char, r: string, p: char -> bool)
    requires !p(v)
    ensures var t := s + [v] + r;
            && t[0] == (if s == "" then v else s[0])
            && AfterFirst(t, p) == if s == "" then r else AfterFirst(s, p) + [v] + r
  {
    hide RunEnd;
    var t := s + [v] + r;
    if s == "" {
      assert t[1..] == r;
    } else if p(s[0]) {
      assert t == s + ([v] + r);
      RunEndOfConcat(s, [v] + r, 0, p);
      StopsAt(v, r, p);
      var e := RunEnd(s, 0, p);
      assert t[e..] == s[e..] + [v] + r;
    } else {
      assert t[1..] == s[1..] + [v] + r;
    }
  }

  lemma {:induction false} StopsAt(v: char, r: string, p: char -> bool)
    requires !p(v)
    ensures RunEnd([v] + r, 0, p) == 0
  {
  }

  lemma {:induction false} MapAround(f: char -> char, s: string, v: char, r: string)
    ensures MapText(f, s + [v] + r) == MapText(f, s) + [f(v)] + MapText(f, r)
  {
  }

  /** A visible character stays where it is: the steps do to either side what they would do to it alone. */
  lemma {:induction false} CleanAround(s: string, v: char, r: string)
    requires !IsSpace(v)
    ensures Clean(s + [v] + r) == Clean(s) + [StraightQuote(v)] + Clean(r)
  {
    hide IsSpace, UnixLineBreaks, CollapseRuns, StraightQuote, MapText;
    BlanksAreSpace();
    QuotesKeepSpace();
    var w := StraightQuote(v);
    MapAround(StraightQuote, s, v, r);
    var s1, r1 := MapText(StraightQuote, s), MapText(StraightQuote, r);
    UnixAround(s1, w, r1);
    var s2, r2 := UnixLineBreaks(s1), UnixLineBreaks(r1);
    CollapseAround(s2, w, r2, IsBlankChar, ' ');
    CollapseAround(CollapseRuns(s2, IsBlankChar, ' '), w, CollapseRuns(r2, IsBlankChar, ' '), IsLineFeed, '\n');
  }

  ghost predicate EndsVisibly(s: string) {
    s != "" && !IsSpace(s[|s| - 1])
  }

  ghost predicate StartsVisibly(s: string) {
    s != "" && !IsSpace(s[0])
  }

  lemma {:induction false} CleanJoin(x: string, gap: string, y: string)
    requires EndsVisibly(x) && StartsVisibly(y)
    ensures Clean(x + gap + y) == Clean(x) + Clean(gap) + Clean(y)
    ensures EndsVisibly(Clean(x)) && StartsVisibly(Clean(y))
  {
    hide IsSpace, Clean, StraightQuote;
    QuotesKeepSpace();
    NothingIsClean();
    var last := |x| - 1;
    var v, w := x[last], y[0];
    assert x == x[..last] + [v] + "" && y == "" + [w] + y[1..];
    CleanAround(x[..last], v, "");
    CleanAround("", w, y[1..]);
    assert x + gap + y == x[..last] + [v] + (gap + y);
    CleanAround(x[..last], v, gap + y);
    assert gap + y == gap + [w] + y[1..];
    CleanAround(gap, w, y[1..]);
  }

  lemma {:induction false} NothingIsClean()
    ensures Clean("") == ""
  {
  }

  lemma {:induction false} TrimOfJoin(a: string, m: string, b: string)
    requires EndsVisibly(a) && StartsVisibly(b)
    ensures Trim(a + m + b) == Trim(a) + m + Trim(b)
  {
    hide IsSpace, Trim, RunEnd;
    TrimAtStart(a);
    TrimAtEnd(b);
    var before := a[..|a| - |Trim(a)|];
    var behind := b[|Trim(b)|..];
    var t := Trim(a) + m + Trim(b);
    assert a + m + b == before + t + behind;
    TrimOfPadded(before, t, behind);
    TrimFixesTrimmed(t);
  }

  lemma {:induction false} TrimAtStart(a: string)
    requires EndsVisibly(a)
    ensures StartsVisibly(Trim(a)) && Blank(a, 0, |a| - |Trim(a)|) && a == a[..|a| - |Trim(a)|] + Trim(a)
  {
    hide IsSpace, RunStart;
  }

  lemma {:induction false} TrimAtEnd(b: string)
    requires StartsVisibly(b)
    ensures EndsVisibly(Trim(b)) && Blank(b, |Trim(b)|, |b|) && b == Trim(b) + b[|Trim(b)|..]
  {
    hide IsSpace, RunStart;
  }

  lemma {:induction false} MapJoin(f: char -> char, x: string, m: string, y: string)
    ensures MapText(f, x + m + y) == MapText(f, x) + MapText(f, m) + MapText(f, y)
  {
  }

  lemma {:induction false} NormalizeJoin(x: string, gap: string, y: string, lower: char -> char)
    requires EndsVisibly(x) && StartsVisibly(y)
    ensures Normalize(x + gap + y, lower)
            == Normalize(x, lower) + MapText(lower, Clean(gap)) + Normalize(y, lower)
  {
    hide Clean, EndsVisibly, StartsVisibly, Trim, MapText, Normalize;
    CleanJoin(x, gap, y);
    TrimOfJoin(Clean(x), Clean(gap), Clean(y));
    MapJoin(lower, Trim(Clean(x)), Clean(gap), Trim(Clean(y)));
    NormalizeIs(x, lower);
    NormalizeIs(y, lower);
    NormalizeIs(x + gap + y, lower);
  }

  lemma {:induction false} UnixOfBreaks(s: string)
    requires s != "" && forall k :: 0 <= k < |s| ==> s[k] == '\r' || s[k] == '\n'
    ensures UnixLineBreaks(s) != "" && forall k :: 0 <= k < |UnixLineBreaks(s)| ==> UnixLineBreaks(s)[k] == '\n'
  {
    if |s| >= 2 {
      UnixOfBreaks(s[1..]);
      if |s| >= 3 {
        UnixOfBreaks(s[2..]);
      }
    }
  }

  lemma {:induction false} CollapseRun(s: string, p: char -> bool, c: char)
    requires s != "" && forall k :: 0 <= k < |s| ==> p(s[k])
    ensures CollapseRuns(s, p, c) == [c]
  {
    assert s[RunEnd(s, 0, p)..] == "";
    NothingCollapses(p, c);
  }

  lemma {:induction false} BlanksAreOneBlank(gap: string)
    requires gap != "" && forall k :: 0 <= k < |gap| ==> gap[k] == ' ' || gap[k] == '\t'
    ensures Clean(gap) == " "
  {
    hide CollapseRuns;
    assert MapText(StraightQuote, gap) == gap;
    UnixStays(gap);
    CollapseRun(gap, IsBlankChar, ' ');
    CollapseStays(" ", IsLineFeed, '\n');
  }

  lemma {:induction false} BreaksAreOneBreak(gap: string)
    requires gap != "" && forall k :: 0 <= k < |gap| ==> gap[k] == '\r' || gap[k] == '\n'
    ensures Clean(gap) == "\n"
  {
    hide CollapseRuns, UnixLineBreaks;
    assert MapText(StraightQuote, gap) == gap;
    UnixOfBreaks(gap);
    CollapseStays(UnixLineBreaks(gap), IsBlankChar, ' ');
    CollapseRun(UnixLineBreaks(gap), IsLineFeed, '\n');
  }

  /**
    * Between two visible characters nothing is put where nothing was, blanks and tabs become one blank, and line breaks
    * of any kind and number become one line feed; either side becomes what it would become alone.
    */
  lemma {:induction false} GapBecomes(x: string, gap: string, y: string, lower: char -> char)
    requires EndsVisibly(x) && StartsVisibly(y) && IsSimpleLowering(lower)
    ensures Normalize(x + y, lower) == Normalize(x, lower) + Normalize(y, lower)
    ensures gap != "" && (forall k :: 0 <= k < |gap| ==> gap[k] == ' ' || gap[k] == '\t') ==>
              Normalize(x + gap + y, lower) == Normalize(x, lower) + " " + Normalize(y, lower)
    ensures gap != "" && (forall k :: 0 <= k < |gap| ==> gap[k] == '\r' || gap[k] == '\n') ==>
              Normalize(x + gap + y, lower) == Normalize(x, lower) + "\n" + Normalize(y, lower)
  {
    hide Clean, EndsVisibly, StartsVisibly, Normalize, IsSpace;
    NormalizeJoin(x, gap, y, lower);
    NormalizeJoin(x, "", y, lower);
    NothingIsClean();
    assert x + "" + y == x + y;
    assert MapText(lower, "") == "";
    LowerKeepsGaps(lower);
    if gap != "" && forall k :: 0 <= k < |gap| ==> gap[k] == ' ' || gap[k] == '\t' {
      BlanksAreOneBlank(gap);
    }
    if gap != "" && forall k :: 0 <= k < |gap| ==> gap[k] == '\r' || gap[k] == '\n' {
      BreaksAreOneBreak(gap);
    }
  }

  lemma {:induction false} LowerKeepsGaps(lower: char -> char)
    requires IsSimpleLowering(lower)
    ensures MapText(lower, " ") == " " && MapText(lower, "\n") == "\n"
  {
    hide IsSpace;
    BlanksAreSpace();
    assert IsSpecial(' ') && IsSpecial('\n');
  }

  /** A single visible character is lower-cased, after the four curly quotes have become straight ones. */
  lemma {:induction false} CharacterBecomes(c: char, lower: char -> char)
    requires !IsSpace(c)
    ensures Normalize([c], lower)
            == [lower(if c in {'\U{2018}', '\U{2019}'} then '\'' else if c in {'\U{201C}', '\U{201D}'} then '"' else c)]
  {
    hide IsSpace, Clean, Normalize;
    QuotesKeepSpace();
    NothingIsClean();
    assert [c] == "" + [c] + "";
    CleanAround("", c, "");
    assert "" + [StraightQuote(c)] + "" == [StraightQuote(c)];
    TrimFixesTrimmed([StraightQuote(c)]);
    NormalizeIs([c], lower);
  }
}
