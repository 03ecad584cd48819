/** The numeric citation markers of an answer (src/domain/ai/citation-marker.ts). */
module CitationMarker {
  import opened JsText
  import opened Seqs

  const MARKER_OPENING := "[출처:"

  function BuildCitationMarker(index: nat): string {
    MARKER_OPENING + " " + Decimal(index) + "]"
  }

  // ----- the expression /\[출처:\s*([\d,\s]+)\]/g -----

  predicate IsListChar(c: char) {
    IsDigit(c) || c == ',' || IsSpace(c)
  }

  predicate OpensAt(text: string, p: nat) {
    p + |MARKER_OPENING| <= |text| && text[p..p + |MARKER_OPENING|] == MARKER_OPENING
  }

  /** Where the index list of a marker opened at `p` stops. */
  function ListEnd(text: string, p: nat): (e: nat)
    requires OpensAt(text, p)
    ensures p + |MARKER_OPENING| <= e <= |text|
  {
    RunEnd(text, p + |MARKER_OPENING|, IsListChar)
  }

  /** A match starts at `p`: the opening, a non-empty list and the closing bracket. */
  predicate MatchesAt(text: string, p: nat) {
    OpensAt(text, p)
    && p + |MARKER_OPENING| < ListEnd(text, p) < |text| && text[ListEnd(text, p)] == ']'
  }

  /**
    * The captured group: `\s*` takes the leading whitespace, and gives one character back when there is nothing else.
    */
  function Captured(text: string, p: nat): string
    requires MatchesAt(text, p)
  {
    CaptureBetween(text, p + |MARKER_OPENING|, ListEnd(text, p))
  }

  function CaptureBetween(text: string, o: nat, e: nat): string
    requires o < e <= |text|
  {
    var k := RunEnd(text, o, IsSpace);
    if k < e then text[k..e] else text[e - 1..e]
  }

  function PositiveIndex(number: Option<nat>): seq<nat> {
    match number
    case Some(n) => if n > 0 then [n] else []
    case None => []
  }

  /** The index a list piece denotes: a finite positive integer, or nothing for an empty piece or inner whitespace. */
  function IndexesOfPiece(piece: string): seq<nat> {
    var t := Trim(piece);
    if t != "" && AllDigits(t) then PositiveIndex(NumberFrom(NumberOf(t))) else []
  }

  function IndexesOfPieces(pieces: seq<string>): seq<nat> {
    if pieces == [] then [] else IndexesOfPiece(pieces[0]) + IndexesOfPieces(pieces[1..])
  }

  function ParseIndexList(raw: string): seq<nat> {
    IndexesOfPieces(SplitOn(raw, ','))
  }

  function IndexesAt(text: string, p: nat): seq<nat> {
    if MatchesAt(text, p) then ParseIndexList(Captured(text, p)) else []
  }

  /** The indexes of all matches that start at or after `p`. */
  function MarkersFrom(text: string, p: nat): seq<nat>
    decreases |text| - p
  {
    if p >= |text| then [] else IndexesAt(text, p) + MarkersFrom(text, p + 1)
  }

  function FindMarkers(text: string): seq<nat> {
    MarkersFrom(text, 0)
  }

  // ----- matches never overlap -----

  lemma {:induction false} OnlyBracketOpens(text: string, p: nat)
    requires OpensAt(text, p)
    ensures text[p] == '[' && forall q :: p < q < p + |MARKER_OPENING| ==> text[q] != '[' && text[q] != '\n' && text[q] != ']'
  {
    var m := text[p..p + |MARKER_OPENING|];
    assert forall q :: p <= q < p + |MARKER_OPENING| ==> text[q] == m[q - p];
  }

  lemma {:induction false} ListCharIsNoBracket(c: char)
    requires IsListChar(c)
    ensures c != '[' && c != ']'
  {
  }

  /** No opening bracket lies inside a marker, closed or not. */
  lemma {:induction false} NoBracketInside(text: string, p: nat)
    requires OpensAt(text, p)
    ensures forall q :: p < q < ListEnd(text, p) ==> text[q] != '['
    ensures MatchesAt(text, p) ==> text[ListEnd(text, p)] != '['
  {
    hide IsListChar;
    OnlyBracketOpens(text, p);
    forall q | p + |MARKER_OPENING| <= q < ListEnd(text, p)
      ensures text[q] != '['
    {
      ListCharIsNoBracket(text[q]);
    }
  }

  lemma {:induction false} NothingOpens(text: string, p: nat, q: nat)
    requires p <= q <= |text| && forall k :: p <= k < q ==> text[k] != '['
    ensures MarkersFrom(text, p) == MarkersFrom(text, q)
    decreases q - p
  {
    hide OpensAt, IndexesAt;
    if p < q {
      if OpensAt(text, p) {
        OnlyBracketOpens(text, p);
      }
      assert !OpensAt(text, p);
      NoIndexesUnopened(text, p);
      NothingOpens(text, p + 1, q);
    }
  }

  lemma {:induction false} NoIndexesUnopened(text: string, p: nat)
    requires !OpensAt(text, p)
    ensures IndexesAt(text, p) == []
  {
  }

  lemma {:induction false} MarkersStep(text: string, p: nat)
    requires p < |text|
    ensures MatchesAt(text, p) ==> OpensAt(text, p) && ListEnd(text, p) < |text|
    ensures MatchesAt(text, p) ==>
              MarkersFrom(text, p) == ParseIndexList(Captured(text, p)) + MarkersFrom(text, ListEnd(text, p) + 1)
    ensures !MatchesAt(text, p) ==> MarkersFrom(text, p) == MarkersFrom(text, p + 1)
  {
    hide Captured, ParseIndexList, ListEnd;
    if MatchesAt(text, p) {
      NoBracketInside(text, p);
      NothingOpens(text, p + 1, ListEnd(text, p) + 1);
    }
  }

  method FindCitationMarkers(text: string) returns (markers: seq<nat>)
    ensures markers == FindMarkers(text)
  {
    hide MatchesAt, Captured, ParseIndexList, ListEnd, MarkersFrom;
    markers := [];
    var pos := 0;
    MarkersEnd(text);
    while pos < |text|
      invariant 0 <= pos <= |text|
      invariant markers + MarkersFrom(text, pos) == FindMarkers(text)
      decreases |text| - pos
    {
      MarkersStep(text, pos);
      if MatchesAt(text, pos) {
        var list := ParseIndexList(Captured(text, pos));
        ghost var before := markers;
        for k := 0 to |list|
          invariant markers == before + list[..k]
        {
          markers := markers + [list[k]];
        }
        assert list[..|list|] == list;
        pos := ListEnd(text, pos) + 1;
      } else {
        pos := pos + 1;
      }
    }
  }

  lemma {:induction false} MarkersEnd(text: string)
    ensures MarkersFrom(text, |text|) == []
  {
  }

  // ----- markers of a concatenation -----

  /** `x` ends inside the index list of an opened marker, so that what follows may still close it. */
  ghost predicate HasOpenTail(x: string) {
    exists p :: OpenTailAt(x, p)
  }

  ghost predicate OpenTailAt(x: string, p: nat) {
    OpensAt(x, p) && ListEnd(x, p) == |x|
  }

  lemma {:induction false} ShiftedMarkers(x: string, y: string, q: nat)
    requires q <= |y|
    ensures MarkersFrom(x + y, |x| + q) == MarkersFrom(y, q)
    decreases |y| - q
  {
    hide IndexesAt;
    if q < |y| {
      ShiftedMatch(x, y, q);
      ShiftedMarkers(x, y, q + 1);
    }
  }

  lemma {:induction false} ShiftedOpening(x: string, y: string, q: nat)
    ensures OpensAt(x + y, |x| + q) <==> OpensAt(y, q)
    ensures OpensAt(y, q) ==> ListEnd(x + y, |x| + q) == |x| + ListEnd(y, q)
  {
    hide IsListChar, RunEnd;
    if q + |MARKER_OPENING| <= |y| {
      assert (x + y)[|x| + q..|x| + q + |MARKER_OPENING|] == y[q..q + |MARKER_OPENING|];
      RunEndShift(x, y, q + |MARKER_OPENING|, IsListChar);
    }
  }

  lemma {:induction false} ShiftedMatch(x: string, y: string, q: nat)
    requires q < |y|
    ensures IndexesAt(x + y, |x| + q) == IndexesAt(y, q)
  {
    hide ParseIndexList, RunEnd, OpensAt, ListEnd, Captured;
    ShiftedOpening(x, y, q);
    if OpensAt(y, q) {
      ListEndBounds(y, q);
      assert MatchesAt(x + y, |x| + q) == MatchesAt(y, q);
      if MatchesAt(y, q) {
        ShiftedCapture(x, y, q);
      }
    }
  }

  lemma {:induction false} ShiftedCapture(x: string, y: string, q: nat)
    requires MatchesAt(y, q) && MatchesAt(x + y, |x| + q)
    ensures Captured(x + y, |x| + q) == Captured(y, q)
  {
    hide OpensAt, ListEnd, CaptureBetween;
    ShiftedOpening(x, y, q);
    ShiftedCaptureBetween(x, y, q + |MARKER_OPENING|, ListEnd(y, q));
  }

  lemma {:induction false} ShiftedCaptureBetween(x: string, y: string, o: nat, e: nat)
    requires o < e <= |y|
    ensures CaptureBetween(x + y, |x| + o, |x| + e) == CaptureBetween(y, o, e)
  {
    hide IsSpace, RunEnd;
    RunEndShift(x, y, o, IsSpace);
    var k := RunEnd(y, o, IsSpace);
    if k < e {
      ShiftedSlice(x, y, k, e);
    }
    ShiftedSlice(x, y, e - 1, e);
  }

  lemma {:induction false} ShiftedSlice(x: string, y: string, i: nat, j: nat)
    requires i <= j <= |y|
    ensures (x + y)[|x| + i..|x| + j] == y[i..j]
  {
  }

  lemma {:induction false} ListEndBounds(t: string, p: nat)
    requires OpensAt(t, p)
    ensures p + |MARKER_OPENING| <= ListEnd(t, p) <= |t|
  {
  }

  /** A match within `x` stays a match, with the same indexes, whatever follows. */
  lemma {:induction false} MatchSurvives(x: string, y: string, p: nat)
    requires MatchesAt(x, p)
    ensures IndexesAt(x + y, p) == IndexesAt(x, p)
  {
    hide IsSpace, IsListChar, ParseIndexList, RunEnd;
    var o := p + |MARKER_OPENING|;
    assert (x + y)[p..o] == x[p..o];
    RunEndOfConcat(x, y, o, IsListChar);
    RunEndOfConcat(x, y, o, IsSpace);
    var k, e := RunEnd(x, o, IsSpace), ListEnd(x, p);
    assert (x + y)[e] == x[e];
    assert k < |x| by { ListStopsSpace(x, p); }
    assert k < e ==> (x + y)[k..e] == x[k..e];
    assert (x + y)[e - 1..e] == x[e - 1..e];
  }

  lemma {:induction false} ListStopsSpace(x: string, p: nat)
    requires MatchesAt(x, p)
    ensures RunEnd(x, p + |MARKER_OPENING|, IsSpace) < |x|
  {
  }

  /** A position of `x` that is no match in `x` becomes one in `x + y` only if nothing opens after it in `x`. */
  lemma {:induction false} NewMatchIsLast(x: string, y: string, p: nat)
    requires p < |x| && !MatchesAt(x, p) && MatchesAt(x + y, p)
    ensures forall q :: p < q < |x| ==> x[q] != '['
    ensures y != "" && y[0] != '['
    ensures y[0] == '\n' ==> OpenTailAt(x, p)
  {
    hide IsSpace, IsListChar, ParseIndexList, Captured;
    var t := x + y;
    var o := p + |MARKER_OPENING|;
    NoBracketInside(t, p);
    OnlyBracketOpens(t, p);
    assert forall q :: 0 <= q < |x| ==> t[q] == x[q];
    if o <= |x| {
      assert t[p..o] == x[p..o];
      assert OpensAt(x, p);
      RunEndOfConcat(x, y, o, IsListChar);
      assert ListEnd(x, p) == |x|;
    }
    assert ListEnd(t, p) >= |x|;
    assert t[|x|] == y[0];
  }

  /** A marker opened in `x` is closed only in `y`. */
  ghost predicate IsNewMatch(x: string, y: string, p: nat) {
    p < |x| && !MatchesAt(x, p) && MatchesAt(x + y, p)
  }

  /** The indexes of the one marker that is opened in `x` and closed only in `y`, if there is one. */
  ghost function Straddling(x: string, y: string): seq<nat> {
    if exists p :: IsNewMatch(x, y, p) then (var p :| IsNewMatch(x, y, p); IndexesAt(x + y, p)) else []
  }

  lemma {:induction false} NewMatchIsUnique(x: string, y: string, p: nat, q: nat)
    requires IsNewMatch(x, y, p) && IsNewMatch(x, y, q)
    ensures p == q
  {
    hide ListEnd, Captured, IsListChar;
    NewMatchIsLast(x, y, p);
    NewMatchIsLast(x, y, q);
    OnlyBracketOpens(x + y, p);
    OnlyBracketOpens(x + y, q);
    assert (x + y)[p] == x[p] && (x + y)[q] == x[q];
  }

  lemma {:induction false} ConcatFrom(x: string, y: string, p: nat)
    requires p <= |x|
    ensures MarkersFrom(x + y, p)
            == MarkersFrom(x, p)
               + (if exists q: nat :: IsNewMatch(x, y, q) && q >= p then Straddling(x, y) else []) + FindMarkers(y)
    decreases |x| - p
  {
    hide IndexesAt, Captured, ParseIndexList, MatchesAt, OpensAt;
    if p == |x| {
      ShiftedMarkers(x, y, 0);
      assert MarkersFrom(x, p) == [];
    } else {
      ConcatFrom(x, y, p + 1);
      assert MarkersFrom(x + y, p) == IndexesAt(x + y, p) + MarkersFrom(x + y, p + 1);
      assert MarkersFrom(x, p) == IndexesAt(x, p) + MarkersFrom(x, p + 1);
      if IsNewMatch(x, y, p) {
        forall q | IsNewMatch(x, y, q) ensures q == p { NewMatchIsUnique(x, y, p, q); }
        NewMatchIsLast(x, y, p);
        NothingOpens(x, p + 1, |x|);
        MarkersEnd(x);
        NoIndexesWithoutMatch(x, p);
      } else {
        SameIndexes(x, y, p);
      }
    }
  }

  lemma {:induction false} NoIndexesWithoutMatch(t: string, p: nat)
    requires !MatchesAt(t, p)
    ensures IndexesAt(t, p) == []
  {
  }

  lemma {:induction false} SameIndexes(x: string, y: string, p: nat)
    requires p < |x| && !IsNewMatch(x, y, p)
    ensures IndexesAt(x + y, p) == IndexesAt(x, p)
  {
    hide Captured, ParseIndexList, ListEnd;
    if MatchesAt(x, p) {
      MatchSurvives(x, y, p);
    }
  }

  /** Concatenation keeps the markers of both texts; at most one marker, opened in the first, is added between them. */
  lemma {:induction false} MarkersOfConcat(x: string, y: string)
    ensures FindMarkers(x + y) == FindMarkers(x) + Straddling(x, y) + FindMarkers(y)
  {
    ConcatFrom(x, y, 0);
  }

  lemma {:induction false} NothingStraddles(x: string, y: string)
    requires y == "" || y[0] == '[' || (y[0] == '\n' && !HasOpenTail(x))
    ensures Straddling(x, y) == []
  {
    hide MatchesAt, OpensAt, ListEnd;
    if p :| IsNewMatch(x, y, p) {
      NewMatchIsLast(x, y, p);
    }
  }

  // ----- index lists -----

  /** A position in some array, counted from 1: a number holds it exactly. */
  predicate IsIndex(n: nat) {
    0 < n < EXACT_INTEGERS
  }

  ghost predicate AllIndexes(ns: seq<nat>) {
    forall i :: 0 <= i < |ns| ==> IsIndex(ns[i])
  }

  lemma {:induction false} IndexesOfPiecesConcat(xs: seq<string>, ys: seq<string>)
    ensures IndexesOfPieces(xs + ys) == IndexesOfPieces(xs) + IndexesOfPieces(ys)
  {
    hide IndexesOfPiece;
    if xs == [] {
      assert xs + ys == ys;
    } else {
      IndexesOfPiecesConcat(xs[1..], ys);
      assert (xs + ys)[0] == xs[0] && (xs + ys)[1..] == xs[1..] + ys;
      var first := IndexesOfPiece(xs[0]);
      assert first + (IndexesOfPieces(xs[1..]) + IndexesOfPieces(ys))
          == (first + IndexesOfPieces(xs[1..])) + IndexesOfPieces(ys);
    }
  }

  lemma {:induction false} ParseIndexListConcat(s: string, u: string)
    ensures ParseIndexList(s + "," + u) == ParseIndexList(s) + ParseIndexList(u)
  {
    hide IndexesOfPieces, SplitOn;
    SplitOnConcat(s, u, ',');
    IndexesOfPiecesConcat(SplitOn(s, ','), SplitOn(u, ','));
  }

  /** A decimal number, with or without a space before it, is a list of one index. */
  lemma {:induction false} ParseOneIndex(n: nat, padding: string)
    requires IsIndex(n) && (padding == "" || padding == " ")
    ensures ParseIndexList(padding + Decimal(n)) == [n]
  {
    hide Trim, IsSpace, NumberOf, Decimal, IndexesOfPiece;
    var piece := padding + Decimal(n);
    PaddedPiece(n, padding);
    SplitOnAbsent(piece, ',');
    assert [piece][1..] == [];
    assert IndexesOfPieces([piece]) == IndexesOfPiece(piece) + IndexesOfPieces([piece][1..]);
  }

  lemma {:induction false} PaddedPiece(n: nat, padding: string)
    requires IsIndex(n) && (padding == "" || padding == " ")
    ensures IndexesOfPiece(padding + Decimal(n)) == [n]
    ensures forall k :: 0 <= k < |padding + Decimal(n)| ==> (padding + Decimal(n))[k] != ','
  {
    hide IsSpace, Decimal, NumberOf, Trim, NumberFrom;
    var d := Decimal(n);
    NumberOfDecimal(n);
    SmallIntegersAreExact(n);
    DigitsAreNoSpace(d);
    TrimPadded(padding, d);
  }

  lemma {:induction false} DigitsAreNoSpace(d: string)
    requires AllDigits(d)
    ensures forall k :: 0 <= k < |d| ==> !IsSpace(d[k]) && d[k] != ','
  {
  }

  lemma {:induction false} TrimPadded(padding: string, d: string)
    requires padding == "" || padding == " "
    requires d != "" && forall k :: 0 <= k < |d| ==> !IsSpace(d[k])
    ensures Trim(padding + d) == d
  {
    var t := padding + d;
    assert t[|t| - 1] == d[|d| - 1] && t[|padding|] == d[0];
    var r := Trim(t);
    var a := RunEnd(t, 0, IsSpace);
    assert a == |padding|;
    assert a + |r| == |t|;
    assert t[a..] == d;
  }

  /** Text that closes an open marker after adding the index `k` to its list. */
  function ClosingText(k: nat, rest: string): string {
    "," + Decimal(k) + "]" + rest
  }

  lemma {:induction false} OpenTailCloses(x: string, p: nat, k: nat, rest: string)
    requires OpenTailAt(x, p) && IsIndex(k)
    ensures var y := ClosingText(k, rest);
            exists extra :: k in extra && FindMarkers(x + PARAGRAPH_BREAK + y) == FindMarkers(x) + extra + FindMarkers(y)
  {
    hide MarkersFrom, ParseIndexList, Straddling, ClosingText, FindMarkers;
    var y := PARAGRAPH_BREAK + ClosingText(k, rest);
    assert x + PARAGRAPH_BREAK + ClosingText(k, rest) == x + y;
    MarkersOfConcat(x, y);
    BreakHasNoMarker(ClosingText(k, rest));
    ClosedByComma(x, p, k, rest);
    StraddlingIs(x, y, p);
  }

  lemma {:induction false} StraddlingIs(x: string, y: string, p: nat)
    requires IsNewMatch(x, y, p)
    ensures Straddling(x, y) == IndexesAt(x + y, p)
  {
    hide IsNewMatch, IndexesAt;
    var q :| IsNewMatch(x, y, q) && Straddling(x, y) == IndexesAt(x + y, q);
    NewMatchIsUnique(x, y, p, q);
  }

  /** `x` ends inside the list of a marker opened at `p`, and `rest` after a paragraph break goes on to close it. */
  ghost predicate ClosesIn(x: string, rest: string, p: nat) {
    OpenTailAt(x, p) && var e := RunEnd(rest, 0, IsListChar); e < |rest| && rest[e] == ']'
  }

  /** Exactly when a paragraph break does not keep a marker from being opened before it and closed after it. */
  lemma {:induction false} NewMatchExactly(x: string, rest: string, p: nat)
    ensures IsNewMatch(x, PARAGRAPH_BREAK + rest, p) <==> ClosesIn(x, rest, p)
  {
    hide IsSpace, IsListChar, RunEnd;
    var y := PARAGRAPH_BREAK + rest;
    var t, o := x + y, p + |MARKER_OPENING|;
    assert y[0] == '\n';
    if IsNewMatch(x, y, p) {
      NewMatchIsLast(x, y, p);
    }
    if OpenTailAt(x, p) {
      assert t[p..o] == x[p..o];
      RunEndOfConcat(x, y, o, IsListChar);
      BreakIsInList();
      RunEndOfConcat(PARAGRAPH_BREAK, rest, 0, IsListChar);
      var e := RunEnd(rest, 0, IsListChar);
      assert ListEnd(t, p) == |x| + 2 + e;
      assert e < |rest| ==> t[|x| + 2 + e] == rest[e];
    }
  }

  lemma {:induction false} BreakIsInList()
    ensures RunEnd(PARAGRAPH_BREAK, 0, IsListChar) == |PARAGRAPH_BREAK|
  {
  }

  lemma {:induction false} ClosingRun(k: nat, rest: string)
    ensures var y := PARAGRAPH_BREAK + ClosingText(k, rest); var n := 3 + |Decimal(k)|;
            n < |y| && RunEnd(y, 0, IsListChar) == n && y[n] == ']' && y[2] == ',' && y[3..n] == Decimal(k)
  {
    hide IsSpace, RunEnd, Decimal;
    var y, d := PARAGRAPH_BREAK + ClosingText(k, rest), Decimal(k);
    var n := 3 + |d|;
    assert y[0] == '\n' && y[1] == '\n' && y[2] == ',' && y[n] == ']' && y[3..n] == d;
    assert IsListChar(y[0]) && IsListChar(y[1]) && !IsListChar(y[n]) by { LineFeedInList(); ClosingBracketNotInList(); }
    assert forall i :: 3 <= i < n ==> y[i] == d[i - 3];
    assert RunEnd(y, 0, IsListChar) == n;
  }

  lemma {:induction false} LineFeedInList()
    ensures IsListChar('\n')
  {
  }

  lemma {:induction false} ClosingBracketNotInList()
    ensures !IsListChar(']')
  {
  }

  lemma {:induction false} ClosedByComma(x: string, p: nat, k: nat, rest: string)
    requires OpenTailAt(x, p) && IsIndex(k)
    ensures var y := PARAGRAPH_BREAK + ClosingText(k, rest);
            IsNewMatch(x, y, p) && k in IndexesAt(x + y, p)
  {
    hide RunEnd, ParseIndexList, ClosingText, Decimal;
    var y := PARAGRAPH_BREAK + ClosingText(k, rest);
    ClosingRun(k, rest);
    var t := x + y;
    var o := p + |MARKER_OPENING|;
    var e := |x| + 3 + |Decimal(k)|;
    assert t[p..o] == x[p..o];
    RunEndOfConcat(x, y, o, IsListChar);
    assert ListEnd(t, p) == e && t[e] == y[e - |x|];
    assert t[|x| + 2] == y[2];
    var s := RunEnd(t, o, IsSpace);
    assert s <= |x| + 2;
    assert t[|x| + 3..e] == y[3..e - |x|];
    assert Captured(t, p) == t[s..|x| + 2] + "," + Decimal(k);
    ParseIndexListConcat(t[s..|x| + 2], Decimal(k));
    ParseOneIndex(k, "");
    assert "" + Decimal(k) == Decimal(k);
  }

  const PARAGRAPH_BREAK := "\n\n"

  lemma {:induction false} BreakHasNoMarker(y: string)
    ensures FindMarkers(PARAGRAPH_BREAK + y) == FindMarkers(y)
  {
    var t := PARAGRAPH_BREAK + y;
    NothingOpens(t, 0, 2);
    ShiftedMarkers(PARAGRAPH_BREAK, y, 0);
  }

  /**
    * Exactly when a paragraph can be joined to anything: the markers of the two sides are the markers of the joined
    * text, whatever follows, if and only if the paragraph does not end inside an opened marker.
    */
  lemma {:induction false} JoinIsSafeWithoutOpenTail(x: string)
    ensures (forall y :: FindMarkers(x + PARAGRAPH_BREAK + y) == FindMarkers(x) + FindMarkers(y)) <==> !HasOpenTail(x)
  {
    hide FindMarkers, HasOpenTail;
    if !HasOpenTail(x) {
      forall y
        ensures FindMarkers(x + PARAGRAPH_BREAK + y) == FindMarkers(x) + FindMarkers(y)
      {
        ClosedTailJoins(x, y);
      }
    } else {
      OpenTailFailsToJoin(x);
    }
  }

  lemma {:induction false} ClosedTailJoins(x: string, y: string)
    requires !HasOpenTail(x)
    ensures FindMarkers(x + PARAGRAPH_BREAK + y) == FindMarkers(x) + FindMarkers(y)
  {
    hide FindMarkers, HasOpenTail, Straddling;
    assert x + PARAGRAPH_BREAK + y == x + (PARAGRAPH_BREAK + y);
    MarkersOfConcat(x, PARAGRAPH_BREAK + y);
    NothingStraddles(x, PARAGRAPH_BREAK + y);
    BreakHasNoMarker(y);
  }

  lemma {:induction false} OpenTailFailsToJoin(x: string)
    requires HasOpenTail(x)
    ensures exists y :: FindMarkers(x + PARAGRAPH_BREAK + y) != FindMarkers(x) + FindMarkers(y)
  {
    hide FindMarkers, OpenTailAt, ClosingText;
    var p: nat :| OpenTailAt(x, p);
    OpenTailCloses(x, p, 1, "");
    var y := ClosingText(1, "");
    var extra :| 1 in extra && FindMarkers(x + PARAGRAPH_BREAK + y) == FindMarkers(x) + extra + FindMarkers(y);
    assert |FindMarkers(x + PARAGRAPH_BREAK + y)| > |FindMarkers(x) + FindMarkers(y)|;
  }

  // ----- round trips -----

  /** A closed bracket around the list `body`. */
  function Bracket(body: string): string {
    MARKER_OPENING + " " + body + "]"
  }

  ghost predicate IsListBody(body: string) {
    body != "" && !IsSpace(body[0]) && forall k :: 0 <= k < |body| ==> IsListChar(body[k])
  }

  lemma {:induction false} BracketMatches(body: string)
    requires IsListBody(body)
    ensures MatchesAt(Bracket(body), 0) && Captured(Bracket(body), 0) == body
    ensures forall p :: 0 < p < |Bracket(body)| ==> Bracket(body)[p] != '['
  {
    hide RunEnd;
    var t := Bracket(body);
    var o := |MARKER_OPENING|;
    assert t[0..o] == MARKER_OPENING;
    assert OpensAt(t, 0);
    OnlyBracketOpens(t, 0);
    assert t[o] == ' ' && IsListChar(' ');
    assert forall k :: 0 <= k < |body| ==> t[o + 1 + k] == body[k];
    assert forall k :: o < k < |t| - 1 ==> t[k] == body[k - o - 1];
    assert t[|t| - 1] == ']' && !IsListChar(']');
    assert ListEnd(t, 0) == |t| - 1;
    assert RunEnd(t, o, IsSpace) == o + 1;
    assert t[o + 1..|t| - 1] == body;
    NoBracketInside(t, 0);
  }

  lemma {:induction false} BracketMarkers(body: string, y: string)
    requires IsListBody(body)
    ensures FindMarkers(Bracket(body)) == ParseIndexList(body)
    ensures Straddling(Bracket(body), y) == []
  {
    hide Captured, ParseIndexList, ListEnd, IsListBody, Bracket;
    var t := Bracket(body);
    BracketMatches(body);
    NothingOpens(t, 1, |t|);
    MarkersEnd(t);
    forall p: nat
      ensures !IsNewMatch(t, y, p)
    {
      if p < |t| && MatchesAt(t + y, p) {
        OnlyBracketOpens(t + y, p);
        assert (t + y)[p] == t[p];
      }
    }
  }

  lemma {:induction false} DecimalIsListBody(n: nat)
    ensures IsListBody(Decimal(n))
  {
    hide IsSpace;
    DigitsAreNoSpace(Decimal(n));
  }

  lemma {:induction false} OneMarker(n: nat, y: string)
    requires IsIndex(n)
    ensures FindMarkers(BuildCitationMarker(n)) == [n] && Straddling(BuildCitationMarker(n), y) == []
    ensures BuildCitationMarker(n) != "" && BuildCitationMarker(n)[0] == '['
  {
    hide ParseIndexList, Decimal, FindMarkers, Straddling;
    DecimalIsListBody(n);
    assert BuildCitationMarker(n) == Bracket(Decimal(n));
    BracketMarkers(Decimal(n), y);
    ParseOneIndex(n, "");
    assert "" + Decimal(n) == Decimal(n);
  }

  /** Text fragments with one marker between each two of them. */
  function Interleave(fragments: seq<string>, ns: seq<nat>): string
    requires |fragments| == |ns| + 1
  {
    if ns == [] then fragments[0]
    else fragments[0] + (BuildCitationMarker(ns[0]) + Interleave(fragments[1..], ns[1..]))
  }

  function InterleavedMarkers(fragments: seq<string>, ns: seq<nat>): seq<nat>
    requires |fragments| == |ns| + 1
  {
    if ns == [] then FindMarkers(fragments[0])
    else FindMarkers(fragments[0]) + ([ns[0]] + InterleavedMarkers(fragments[1..], ns[1..]))
  }

  /** Whatever text is put around markers, the parser finds the written indexes, in order, among the text's own markers. */
  lemma {:induction false} MarkerRoundTrip(fragments: seq<string>, ns: seq<nat>)
    requires |fragments| == |ns| + 1 && AllIndexes(ns)
    ensures FindMarkers(Interleave(fragments, ns)) == InterleavedMarkers(fragments, ns)
  {
    hide FindMarkers, BuildCitationMarker, Straddling;
    if ns != [] {
      var rest := Interleave(fragments[1..], ns[1..]);
      var marker := BuildCitationMarker(ns[0]);
      OneMarker(ns[0], rest);
      MarkersOfConcat(marker, rest);
      assert (marker + rest)[0] == marker[0];
      NothingStraddles(fragments[0], marker + rest);
      MarkersOfConcat(fragments[0], marker + rest);
      MarkerRoundTrip(fragments[1..], ns[1..]);
    }
  }

  /** In text without markers of its own, the written indexes are found exactly. */
  lemma {:induction false} MarkerRoundTripInPlainText(fragments: seq<string>, ns: seq<nat>)
    requires |fragments| == |ns| + 1 && AllIndexes(ns)
    requires forall f :: f in fragments ==> FindMarkers(f) == []
    ensures FindMarkers(Interleave(fragments, ns)) == ns
  {
    MarkerRoundTrip(fragments, ns);
    PlainFragments(fragments, ns);
  }

  lemma {:induction false} PlainFragments(fragments: seq<string>, ns: seq<nat>)
    requires |fragments| == |ns| + 1 && forall f :: f in fragments ==> FindMarkers(f) == []
    ensures InterleavedMarkers(fragments, ns) == ns
  {
    hide FindMarkers;
    assert fragments[0] in fragments;
    if ns != [] {
      PlainFragments(fragments[1..], ns[1..]);
    }
  }

  function ListBody(ns: seq<nat>): string
    requires ns != []
  {
    if |ns| == 1 then Decimal(ns[0]) else Decimal(ns[0]) + ", " + ListBody(ns[1..])
  }

  lemma {:induction false} ListBodyIsListBody(ns: seq<nat>)
    requires ns != []
    ensures IsListBody(ListBody(ns))
  {
    hide Decimal, IsSpace;
    DecimalIsListBody(ns[0]);
    if |ns| > 1 {
      ListBodyIsListBody(ns[1..]);
      assert IsListChar(',') && IsSpace(' ') by { SeparatorChars(); }
    }
  }

  lemma {:induction false} SeparatorChars()
    ensures IsListChar(',') && IsSpace(' ') && IsListChar(' ')
  {
  }

  lemma {:induction false} ParseListBody(ns: seq<nat>, padding: string)
    requires ns != [] && (padding == "" || padding == " ") && AllIndexes(ns)
    ensures ParseIndexList(padding + ListBody(ns)) == ns
  {
    hide ParseIndexList, Decimal;
    ParseOneIndex(ns[0], padding);
    if |ns| > 1 {
      assert padding + ListBody(ns) == (padding + Decimal(ns[0])) + "," + (" " + ListBody(ns[1..]));
      ParseIndexListConcat(padding + Decimal(ns[0]), " " + ListBody(ns[1..]));
      ParseListBody(ns[1..], " ");
    }
  }

  function SideBySide(ns: seq<nat>): string {
    if ns == [] then "" else BuildCitationMarker(ns[0]) + SideBySide(ns[1..])
  }

  /** One bracket with several indexes names the same citations as the same indexes in brackets of their own. */
  lemma {:induction false} CombinedBracketEqualsSideBySide(ns: seq<nat>)
    requires ns != [] && AllIndexes(ns)
    ensures FindMarkers(Bracket(ListBody(ns))) == ns == FindMarkers(SideBySide(ns))
  {
    hide ParseIndexList, ListBody, Bracket, FindMarkers, SideBySide;
    ListBodyIsListBody(ns);
    BracketMarkers(ListBody(ns), "");
    ParseListBody(ns, "");
    assert "" + ListBody(ns) == ListBody(ns);
    SideBySideMarkers(ns);
  }

  lemma {:induction false} SideBySideMarkers(ns: seq<nat>)
    requires AllIndexes(ns)
    ensures FindMarkers(SideBySide(ns)) == ns
  {
    hide FindMarkers, BuildCitationMarker, Straddling;
    if ns != [] {
      OneMarker(ns[0], SideBySide(ns[1..]));
      MarkersOfConcat(BuildCitationMarker(ns[0]), SideBySide(ns[1..]));
      SideBySideMarkers(ns[1..]);
    } else {
      MarkersEnd("");
      EmptyHasNoMarkers();
    }
  }

  lemma {:induction false} EmptyHasNoMarkers()
    ensures FindMarkers("") == []
  {
  }

  // ----- joined paragraphs -----

  function MarkersOfBlocks(blocks: seq<string>): seq<nat> {
    if blocks == [] then [] else FindMarkers(blocks[0]) + MarkersOfBlocks(blocks[1..])
  }

  /** Joining paragraphs loses no marker of any of them. */
  lemma {:induction false} JoinKeepsMarkers(blocks: seq<string>)
    ensures forall n :: n in MarkersOfBlocks(blocks) ==> n in FindMarkers(Join(blocks, PARAGRAPH_BREAK))
  {
    hide FindMarkers, Straddling;
    if |blocks| == 1 {
      assert blocks[1..] == [] && MarkersOfBlocks(blocks) == FindMarkers(blocks[0]) + MarkersOfBlocks(blocks[1..]);
    } else if |blocks| > 1 {
      var rest := Join(blocks[1..], PARAGRAPH_BREAK);
      JoinKeepsMarkers(blocks[1..]);
      assert Join(blocks, PARAGRAPH_BREAK) == blocks[0] + (PARAGRAPH_BREAK + rest);
      MarkersOfConcat(blocks[0], PARAGRAPH_BREAK + rest);
      BreakHasNoMarker(rest);
    }
  }

  /** When no paragraph ends inside an opened marker, the joined text has exactly the markers of its paragraphs. */
  lemma {:induction false} JoinOfClosedBlocks(blocks: seq<string>)
    requires forall b :: b in blocks ==> !HasOpenTail(b)
    ensures FindMarkers(Join(blocks, PARAGRAPH_BREAK)) == MarkersOfBlocks(blocks)
  {
    hide FindMarkers, HasOpenTail;
    if |blocks| == 0 {
      EmptyHasNoMarkers();
    } else if |blocks| == 1 {
      assert blocks[1..] == [] && MarkersOfBlocks(blocks) == FindMarkers(blocks[0]) + MarkersOfBlocks(blocks[1..]);
    } else {
      assert blocks[0] in blocks;
      JoinIsSafeWithoutOpenTail(blocks[0]);
      JoinOfClosedBlocks(blocks[1..]);
    }
  }

  // ----- what a marker is, from its text alone -----

  /** One or more digits, commas and whitespace characters. */
  ghost predicate IsWrittenList(list: string) {
    list != "" && forall k :: 0 <= k < |list| ==> '0' <= list[k] <= '9' || list[k] == ',' || IsSpace(list[k])
  }

  ghost predicate IsMarkerAt(text: string, p: nat, list: string) {
    IsWrittenList(list) && p <= |text| && "[출처:" + list + "]" <= text[p..]
  }

  lemma {:induction false} MarkerAtMatches(text: string, p: nat, list: string)
    requires IsMarkerAt(text, p, list)
    ensures MatchesAt(text, p) && text[p + |MARKER_OPENING|..ListEnd(text, p)] == list
  {
    hide IsSpace, RunEnd, IsListChar, IsWrittenList;
    var o := p + |MARKER_OPENING|;
    WrittenMarkerParts(text, p, list);
    WrittenListChars(list);
    assert forall k :: o <= k < o + |list| ==> text[k] == list[k - o];
    ClosingBracketNotInList();
    RunEndIs(text, o, o + |list|, IsListChar);
  }

  lemma {:induction false} WrittenListChars(list: string)
    requires IsWrittenList(list)
    ensures list != "" && forall k :: 0 <= k < |list| ==> IsListChar(list[k])
  {
    hide IsSpace;
  }

  lemma {:induction false} WrittenMarkerParts(text: string, p: nat, list: string)
    requires p <= |text| && "[출처:" + list + "]" <= text[p..]
    ensures p + |MARKER_OPENING| + |list| < |text|
    ensures text[p..p + |MARKER_OPENING|] == MARKER_OPENING
    ensures text[p + |MARKER_OPENING|..p + |MARKER_OPENING| + |list|] == list
    ensures text[p + |MARKER_OPENING| + |list|] == ']'
  {
    var m := MARKER_OPENING + list + "]";
    var o := |MARKER_OPENING|;
    var e := o + |list|;
    assert text[p..p + |m|] == m;
    assert text[p..p + o] == m[..o];
    assert text[p + o..p + e] == m[o..e];
    assert text[p + e] == text[p..p + |m|][e];
  }

  /** The scanner matches at a position exactly when a bracket with a list of that form is written there. */
  lemma {:induction false} MatchesExactly(text: string, p: nat)
    ensures MatchesAt(text, p) <==> exists list :: IsMarkerAt(text, p, list)
  {
    hide IsSpace, RunEnd;
    if MatchesAt(text, p) {
      var o, e := p + |MARKER_OPENING|, ListEnd(text, p);
      var list := text[o..e];
      assert forall k :: 0 <= k < |list| ==> IsListChar(list[k]);
      assert text[p..] == text[p..o] + text[o..e] + [text[e]] + text[e + 1..];
      assert IsMarkerAt(text, p, list);
    }
    if list :| IsMarkerAt(text, p, list) {
      MarkerAtMatches(text, p, list);
    }
  }

  /** A piece of a list: digits between any whitespace. */
  ghost predicate IsWrittenNumber(piece: string, digits: string) {
    digits != "" && AllDigits(digits)
    && exists before, behind :: IsPadded(piece, before, digits, behind)
  }

  ghost predicate IsPadded(piece: string, before: string, s: string, behind: string) {
    Blank(before, 0, |before|) && Blank(behind, 0, |behind|) && piece == before + s + behind
  }

  lemma {:induction false} WrittenNumberIsTrimmed(piece: string, digits: string)
    ensures IsWrittenNumber(piece, digits) <==> digits != "" && AllDigits(digits) && Trim(piece) == digits
  {
    hide IsSpace, Trim, AllDigits, Blank;
    if IsWrittenNumber(piece, digits) {
      var before, behind :| IsPadded(piece, before, digits, behind);
      TrimOfPadded(before, digits, behind);
      DigitsAreNoSpace(digits);
      TrimFixesTrimmed(digits);
    }
    if digits != "" && Trim(piece) == digits {
      TrimLeavesPadding(piece);
    }
  }

  lemma {:induction false} TrimLeavesPadding(piece: string)
    requires Trim(piece) != ""
    ensures exists before, behind :: IsPadded(piece, before, Trim(piece), behind)
  {
    hide IsSpace, RunEnd, RunStart;
    var a := RunEnd(piece, 0, IsSpace);
    var t := Trim(piece);
    assert piece == piece[..a] + t + piece[a + |t|..];
    assert IsPadded(piece, piece[..a], t, piece[a + |t|..]);
  }

  /** A piece denotes an index exactly when it is such a number, finite and not zero; nothing else does. */
  lemma {:induction false} PieceExactly(piece: string, n: nat)
    ensures IndexesOfPiece(piece) == [n]
            <==> n > 0 && exists digits :: IsWrittenNumber(piece, digits) && NumberFrom(NumberOf(digits)) == Some(n)
    ensures |IndexesOfPiece(piece)| <= 1
  {
    hide Trim, NumberFrom, NumberOf, IsWrittenNumber;
    forall digits
      ensures IsWrittenNumber(piece, digits) <==> digits != "" && AllDigits(digits) && Trim(piece) == digits
    {
      WrittenNumberIsTrimmed(piece, digits);
    }
    if IndexesOfPiece(piece) == [n] {
      assert IsWrittenNumber(piece, Trim(piece));
    }
  }

  lemma {:induction false} LeadingSpaceInList(blank: string, list: string)
    requires Blank(blank, 0, |blank|)
    ensures ParseIndexList(blank + list) == ParseIndexList(list)
  {
    hide IsSpace, IndexOf, IndexesOfPiece, SplitOn;
    var t := blank + list;
    SpaceIsNoComma(blank);
    var at := IndexOf(list, ',', 0);
    assert forall k :: 0 <= k < |blank| ==> t[k] == blank[k];
    assert forall k :: 0 <= k < |list| ==> t[|blank| + k] == list[k];
    if at == -1 {
      SplitOnAbsent(list, ',');
      SplitOnAbsent(t, ',');
      PaddedPieceIsSame(blank, list);
      FirstPiece(list, []);
      FirstPiece(t, []);
      assert [list] + [] == [list] && [t] + [] == [t];
    } else {
      SplitOnFirst(list, ',', at);
      SplitOnFirst(t, ',', |blank| + at);
      assert t[..|blank| + at] == blank + list[..at] && t[|blank| + at + 1..] == list[at + 1..];
      PaddedPieceIsSame(blank, list[..at]);
      FirstPiece(list[..at], SplitOn(list[at + 1..], ','));
      FirstPiece(blank + list[..at], SplitOn(list[at + 1..], ','));
    }
  }

  lemma {:induction false} FirstPiece(piece: string, pieces: seq<string>)
    ensures IndexesOfPieces([piece] + pieces) == IndexesOfPiece(piece) + IndexesOfPieces(pieces)
  {
    hide IndexesOfPiece;
    assert ([piece] + pieces)[1..] == pieces;
  }

  lemma {:induction false} SpaceIsNoComma(blank: string)
    requires Blank(blank, 0, |blank|)
    ensures forall k :: 0 <= k < |blank| ==> blank[k] != ','
  {
  }

  lemma {:induction false} PaddedPieceIsSame(blank: string, piece: string)
    requires Blank(blank, 0, |blank|)
    ensures IndexesOfPiece(blank + piece) == IndexesOfPiece(piece)
  {
    hide Trim, IsSpace;
    assert blank + piece + "" == blank + piece;
    TrimOfPadded(blank, piece, "");
  }

  /** What the expression captures, and what it leaves to its leading `\s*`, makes no difference. */
  lemma {:induction false} CaptureParsesWholeList(text: string, p: nat)
    requires MatchesAt(text, p)
    ensures ParseIndexList(Captured(text, p)) == ParseIndexList(text[p + |MARKER_OPENING|..ListEnd(text, p)])
  {
    hide IsSpace, RunEnd, OpensAt, IsListChar, ParseIndexList;
    var o, e := p + |MARKER_OPENING|, ListEnd(text, p);
    var k := RunEnd(text, o, IsSpace);
    var list := text[o..e];
    if k < e {
      assert list == text[o..k] + text[k..e];
      LeadingSpaceInList(text[o..k], text[k..e]);
    } else {
      assert list == text[o..e - 1] + text[e - 1..e];
      LeadingSpaceInList(text[o..e - 1], text[e - 1..e]);
    }
  }

  /** A written marker contributes the indexes of its list, whatever stands around it. */
  lemma {:induction false} MarkerInText(before: string, list: string, behind: string)
    requires IsWrittenList(list)
    ensures FindMarkers(before + ("[출처:" + list + "]" + behind))
            == FindMarkers(before) + ParseIndexList(list) + FindMarkers(behind)
  {
    hide FindMarkers, ParseIndexList, Straddling, IsWrittenList;
    var y := "[출처:" + list + "]" + behind;
    MarkersOfConcat(before, y);
    NothingStraddles(before, y);
    MarkerInFront(list, behind);
  }

  lemma {:induction false} MarkerInFront(list: string, behind: string)
    requires IsWrittenList(list)
    ensures FindMarkers("[출처:" + list + "]" + behind) == ParseIndexList(list) + FindMarkers(behind)
  {
    hide ParseIndexList, MarkersFrom, MatchesAt, Captured, ListEnd;
    var m := "[출처:" + list + "]";
    var t := m + behind;
    assert t[0..] == t && m <= t;
    MarkerAtMatches(t, 0, list);
    MarkersStep(t, 0);
    CaptureParsesWholeList(t, 0);
    assert ListEnd(t, 0) + 1 == |m|;
    ShiftedMarkers(m, behind, 0);
  }

  /** And a text in which no marker is written has none. */
  lemma {:induction false} NoMarkerWritten(text: string)
    requires forall p, list :: !IsMarkerAt(text, p, list)
    ensures FindMarkers(text) == []
  {
    hide MatchesAt, IsMarkerAt;
    forall p
      ensures !MatchesAt(text, p)
    {
      MatchesExactly(text, p);
    }
    NoMatchNoMarkers(text, 0);
  }

  lemma {:induction false} NoMatchNoMarkers(text: string, p: nat)
    requires forall q :: !MatchesAt(text, q)
    ensures MarkersFrom(text, p) == []
    decreases |text| - p
  {
    hide MatchesAt, Captured, ParseIndexList;
    if p < |text| {
      NoMatchNoMarkers(text, p + 1);
    }
  }
}
