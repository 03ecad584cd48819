/** Citations and their identity by provision (src/domain/ai/citation.ts, src/domain/ai/citation-provision.ts). */
module CitationProvision {
  import opened JsText
  import opened Seqs
  import opened StableSort

  datatype EvidenceType = Clause | Chunk

  /**
    * The fields of a citation that its treatment depends on; `sourceId` is its clause or chunk id. `identity` tells
    * citation objects apart, so that two citations are equal exactly when they are the same object.
    */
  datatype Citation = Citation(
    identity: nat, evidenceType: EvidenceType, sourceId: string, contractId: string, contractTitle: string,
    clauseReference: string, evidenceText: string, score: real)

  // ----- the provision key -----

  /** The digits of a leading article number, as /^제\s*\d+\s*조/ finds it. */
  function ArticleDigits(reference: string): Option<string> {
    if reference == "" || reference[0] != '제' then None
    else
      var a := RunEnd(reference, 1, IsSpace);
      var b := RunEnd(reference, a, IsDigit);
      var c := RunEnd(reference, b, IsSpace);
      if a < b && c < |reference| && reference[c] == '조' then Some(reference[a..b]) else None
  }

  function Article(reference: string): string {
    match ArticleDigits(reference)
    case Some(digits) => "제" + digits + "조"
    case None => reference
  }

  function ProvisionKey(c: Citation): string {
    c.contractId + "::" + Article(c.clauseReference)
  }

  /** The provision a citation refers to: contract and article. */
  function Provision(c: Citation): (string, string) {
    (c.contractId, Article(c.clauseReference))
  }

  /** Spacing inside the article number and whatever follows it, such as its title, do not matter to the key. */
  lemma {:induction false} SpellingsShareArticle(digits: string, blank: string, space: string, title: string)
    requires digits != "" && AllDigits(digits) && Blank(blank, 0, |blank|) && Blank(space, 0, |space|)
    ensures Article("제" + blank + digits + space + "조" + title) == "제" + digits + "조"
  {
    hide IsSpace, RunEnd;
    var t := "제" + blank + digits + space + "조" + title;
    var a := 1 + |blank|;
    var b := a + |digits|;
    var c := b + |space|;
    assert !IsSpace('조') && !IsDigit('조') by { ArticleMarkIsLetter(); }
    DigitIsNoSpace(digits);
    SpaceIsNoDigit(space);
    assert t[0] == '제' && t[a] == digits[0] && t[c] == '조';
    assert t[b] == if space == "" then '조' else space[0];
    assert forall k :: 1 <= k < a ==> t[k] == blank[k - 1];
    assert forall k :: a <= k < b ==> t[k] == digits[k - a];
    assert forall k :: b <= k < c ==> t[k] == space[k - b];
    RunEndIs(t, 1, a, IsSpace);
    RunEndIs(t, a, b, IsDigit);
    RunEndIs(t, b, c, IsSpace);
    assert t[a..b] == digits;
  }

  /** A reference that starts with an article number: the two marks, digits, and whitespace around them if any. */
  ghost predicate IsArticle(reference: string, blank: string, digits: string, space: string) {
    && digits != "" && AllDigits(digits) && Blank(blank, 0, |blank|) && Blank(space, 0, |space|)
    && "제" + blank + digits + space + "조" <= reference
  }

  /** Every other reference stands for itself. */
  lemma {:induction false} OtherReferencesStay(reference: string)
    requires !exists blank, digits, space :: IsArticle(reference, blank, digits, space)
    ensures Article(reference) == reference
  {
    hide ArticleDigits, IsArticle;
    if ArticleDigits(reference).Some? {
      FoundArticleIsWritten(reference);
    }
  }

  lemma {:induction false} FoundArticleIsWritten(reference: string)
    requires ArticleDigits(reference).Some?
    ensures exists blank, digits, space :: IsArticle(reference, blank, digits, space)
  {
    hide IsSpace, RunEnd;
    var a := RunEnd(reference, 1, IsSpace);
    var b := RunEnd(reference, a, IsDigit);
    var c := RunEnd(reference, b, IsSpace);
    var blank, digits, space := reference[1..a], reference[a..b], reference[b..c];
    assert reference[..1] == "제" && reference[c..c + 1] == "조";
    InParts(reference, a, b, c);
    assert IsArticle(reference, blank, digits, space);
  }

  lemma {:induction false} InParts(s: string, a: nat, b: nat, c: nat)
    requires 1 <= a <= b <= c < |s|
    ensures s == (s[..1] + s[1..a] + s[a..b] + s[b..c] + s[c..c + 1]) + s[c + 1..]
  {
    assert s[..1] + s[1..a] == s[..a];
    assert s[..a] + s[a..b] == s[..b];
    assert s[..b] + s[b..c] == s[..c];
    assert s[..c] + s[c..c + 1] == s[..c + 1];
  }

  lemma {:induction false} ArticleMarkIsLetter()
    ensures !IsSpace('조') && !IsDigit('조')
  {
  }

  lemma {:induction false} FirstColon(x: string, y: string, u: string, v: string)
    requires ':' !in x && ':' !in y && x + "::" + u == y + "::" + v
    ensures x == y && u == v
  {
    var s := x + "::" + u;
    var t := y + "::" + v;
    assert s[|x|] == ':' && t[|y|] == ':';
    assert forall k :: 0 <= k < |x| ==> s[k] == x[k] && x[k] in x;
    assert forall k :: 0 <= k < |y| ==> t[k] == y[k] && y[k] in y;
    assert |x| == |y|;
    assert x == s[..|x|] == t[..|y|] == y;
    assert u == s[|x| + 2..] == t[|y| + 2..] == v;
  }

  /** Contract ids without a colon: citations share a key exactly when they cite the same article of the same contract. */
  lemma {:induction false} KeyIdentifiesProvision(c: Citation, d: Citation)
    requires ':' !in c.contractId && ':' !in d.contractId
    ensures ProvisionKey(c) == ProvisionKey(d) <==> Provision(c) == Provision(d)
  {
    hide Article;
    if ProvisionKey(c) == ProvisionKey(d) {
      FirstColon(c.contractId, d.contractId, Article(c.clauseReference), Article(d.clauseReference));
    }
  }

  /** Two contract ids for which some references give equal keys. */
  ghost predicate CanCollide(x: string, y: string) {
    exists r, q :: r != "" && q != "" && x + "::" + Article(r) == y + "::" + Article(q)
  }

  /** What is left of the longer id, with its separator, once the shorter id and its separator are removed. */
  function Remainder(x: string, y: string): string
    requires |x| <= |y|
  {
    (y + "::")[|x| + 2..]
  }

  lemma {:induction false} ArticleHasNoColon(reference: string)
    requires ArticleDigits(reference).Some?
    ensures ':' !in Article(reference)
  {
    hide IsSpace;
    var digits := ArticleDigits(reference).value;
    assert forall k :: 0 <= k < |digits| ==> IsDigit(digits[k]);
  }

  lemma {:induction false} ArticleOfColonText(rest: string, tail: string)
    requires rest != "" && rest[|rest| - 1] == ':'
    ensures ArticleDigits(rest + tail) == ArticleDigits(rest)
  {
    hide IsSpace, RunEnd;
    var t := rest + tail;
    assert t[0] == rest[0] && forall k :: 0 <= k < |rest| ==> t[k] == rest[k];
    if rest[0] == '제' {
      var last := |rest| - 1;
      assert !IsSpace(':') by { ColonIsNoSpace(); }
      RunEndOfConcat(rest, tail, 1, IsSpace);
      var a := RunEnd(rest, 1, IsSpace);
      assert a <= last;
      RunEndOfConcat(rest, tail, a, IsDigit);
      var b := RunEnd(rest, a, IsDigit);
      assert b <= last;
      RunEndOfConcat(rest, tail, b, IsSpace);
      assert t[a..b] == rest[a..b];
    }
  }

  lemma {:induction false} ColonIsNoSpace()
    ensures !IsSpace(':')
  {
  }

  /**
    * Exactly when citations of two different contracts can be taken for the same provision: one id with its separator
    * begins the other with its separator, and what remains does not start with an article number.
    */
  lemma {:induction false} CollisionsExactly(x: string, y: string)
    requires |x| <= |y| && x != y
    ensures CanCollide(x, y) <==> x + "::" <= y + "::" && ArticleDigits(Remainder(x, y)).None?
  {
    hide ArticleDigits;
    if CanCollide(x, y) {
      var r, q :| r != "" && q != "" && x + "::" + Article(r) == y + "::" + Article(q);
      CollisionNeedsPlainRemainder(x, y, r, q);
    }
    if x + "::" <= y + "::" && ArticleDigits(Remainder(x, y)).None? {
      PlainRemainderCollides(x, y);
    }
  }

  lemma {:induction false} CollisionNeedsPlainRemainder(x: string, y: string, r: string, q: string)
    requires |x| <= |y| && x != y && x + "::" + Article(r) == y + "::" + Article(q)
    ensures x + "::" <= y + "::" && ArticleDigits(Remainder(x, y)).None?
  {
    hide ArticleDigits;
    var rest := Remainder(x, y);
    CollisionRemainder(x, y, Article(r), Article(q));
    ArticleOfColonText(rest, Article(q));
    assert Article(r)[|rest| - 1] == ':';
    if ArticleDigits(r).Some? {
      ArticleHasNoColon(r);
    }
  }

  lemma {:induction false} PlainRemainderCollides(x: string, y: string)
    requires |x| <= |y| && x != y && x + "::" <= y + "::" && ArticleDigits(Remainder(x, y)).None?
    ensures CanCollide(x, y)
  {
    hide ArticleDigits;
    var rest := Remainder(x, y);
    RemainderEndsInColon(x, y);
    ArticleOfColonText(rest, "x");
    PlainLetterIsNoArticle();
    assert Article(rest + "x") == rest + "x" && Article("x") == "x";
    assert x + "::" + (rest + "x") == (x + "::" + rest) + "x";
  }

  lemma {:induction false} RemainderEndsInColon(x: string, y: string)
    requires |x| <= |y| && x != y && x + "::" <= y + "::"
    ensures Remainder(x, y) != "" && Remainder(x, y)[|Remainder(x, y)| - 1] == ':'
    ensures y + "::" == x + "::" + Remainder(x, y)
  {
    assert (x + "::")[..|x|] == x && (y + "::")[..|x|] == (x + "::")[..|x|] && (y + "::")[..|y|] == y;
    assert (y + "::")[..|x| + 2] == x + "::";
  }

  lemma {:induction false} PlainLetterIsNoArticle()
    ensures ArticleDigits("x").None?
  {
  }

  lemma {:induction false} CollisionRemainder(x: string, y: string, u: string, v: string)
    requires |x| <= |y| && x != y && x + "::" + u == y + "::" + v
    ensures x + "::" <= y + "::" && u == Remainder(x, y) + v
    ensures Remainder(x, y) != "" && Remainder(x, y)[|Remainder(x, y)| - 1] == ':'
  {
    var s := x + "::" + u;
    assert x == s[..|x|] && y == s[..|y|] && s[..|x| + 2] == x + "::" && s[..|y| + 2] == y + "::";
    assert s[..|y| + 2][..|x| + 2] == s[..|x| + 2];
    assert u == s[|x| + 2..];
    assert s == (y + "::") + v;
    assert s[|x| + 2..] == (y + "::")[|x| + 2..] + v;
  }

  // ----- keeping the best citation per provision -----

  /** `citationIsBetter`: a clause beats a chunk, and a higher score beats a lower one of the same type. */
  predicate IsBetter(c: Citation, existing: Citation) {
    || (c.evidenceType == Clause && existing.evidenceType != Clause)
    || (c.evidenceType == existing.evidenceType && c.score > existing.score)
  }

  /** The Map with its entries in insertion order: `set` on a known key keeps the key's place. */
  function Record(entries: seq<Citation>, c: Citation): seq<Citation> {
    if entries == [] then [c]
    else if ProvisionKey(entries[0]) != ProvisionKey(c) then [entries[0]] + Record(entries[1..], c)
    else if IsBetter(c, entries[0]) then [c] + entries[1..]
    else entries
  }

  function BestByProvision(cs: seq<Citation>): seq<Citation> {
    if cs == [] then [] else Record(BestByProvision(cs[..|cs| - 1]), cs[|cs| - 1])
  }

  function HigherScore(): (Citation, Citation) -> bool {
    (a: Citation, b: Citation) => a.score > b.score
  }

  function Deduplicate(cs: seq<Citation>): seq<Citation> {
    Sort(BestByProvision(cs), HigherScore())
  }

  ghost predicate DistinctKeys(cs: seq<Citation>) {
    forall i, j :: 0 <= i < j < |cs| ==> ProvisionKey(cs[i]) != ProvisionKey(cs[j])
  }

  /** `best` holds one citation per provision of `cs`, and none of `cs` with that provision is better. */
  ghost predicate IsBestPerProvision(best: seq<Citation>, cs: seq<Citation>) {
    && DistinctKeys(best)
    && (forall b :: b in best ==> b in cs)
    && (forall c :: c in cs ==> HasNoBetter(best, c))
  }

  ghost predicate HasNoBetter(best: seq<Citation>, c: Citation) {
    exists b :: b in best && ProvisionKey(b) == ProvisionKey(c) && !IsBetter(c, b)
  }

  lemma {:induction false} RecordAt(entries: seq<Citation>, c: Citation) returns (i: nat)
    ensures i <= |entries| && forall k :: 0 <= k < i ==> ProvisionKey(entries[k]) != ProvisionKey(c)
    ensures i < |entries| ==> ProvisionKey(entries[i]) == ProvisionKey(c)
    ensures Record(entries, c) ==
            if i == |entries| then entries + [c] else if IsBetter(c, entries[i]) then entries[i := c] else entries
  {
    hide ProvisionKey, IsBetter;
    if entries == [] || ProvisionKey(entries[0]) == ProvisionKey(c) {
      i := 0;
    } else {
      var k := RecordAt(entries[1..], c);
      i := k + 1;
      assert entries == [entries[0]] + entries[1..];
      assert Record(entries, c) == [entries[0]] + Record(entries[1..], c);
    }
  }

  lemma {:induction false} RecordKeepsDistinct(entries: seq<Citation>, c: Citation)
    requires DistinctKeys(entries)
    ensures DistinctKeys(Record(entries, c))
  {
    hide ProvisionKey;
    var i := RecordAt(entries, c);
  }

  lemma {:induction false} RecordHasNoBetter(entries: seq<Citation>, c: Citation, d: Citation)
    requires HasNoBetter(entries, d) || d == c
    ensures HasNoBetter(Record(entries, c), d)
  {
    hide ProvisionKey;
    var i := RecordAt(entries, c);
    var r := Record(entries, c);
    if d == c {
      assert r[i] in r;
    } else {
      var b :| b in entries && ProvisionKey(b) == ProvisionKey(d) && !IsBetter(d, b);
      var j :| 0 <= j < |entries| && entries[j] == b;
      assert r[j] in r;
    }
  }

  /** The map holds one citation per provision seen so far, and it is a best one. */
  lemma {:induction false} BestIsBest(cs: seq<Citation>)
    ensures IsBestPerProvision(BestByProvision(cs), cs)
  {
    hide ProvisionKey, IsBetter, HasNoBetter, Record;
    if cs != [] {
      var front, c := cs[..|cs| - 1], cs[|cs| - 1];
      var before := BestByProvision(front);
      BestIsBest(front);
      RecordKeepsDistinct(before, c);
      var i := RecordAt(before, c);
      forall d | d in cs
        ensures HasNoBetter(BestByProvision(cs), d)
      {
        assert d in front || d == c;
        RecordHasNoBetter(before, c, d);
      }
      forall b | b in BestByProvision(cs)
        ensures b in cs
      {
        assert b in before || b == c;
        assert b in before ==> b in front;
      }
    }
  }

  lemma {:induction false} HigherScoreIsWeakOrder()
    ensures IsWeakOrder(HigherScore())
  {
  }

  ghost predicate IsSortedByScore(cs: seq<Citation>) {
    forall i, j :: 0 <= i < j < |cs| ==> cs[i].score >= cs[j].score
  }

  lemma {:induction false} DistinctKeysArePermutable(s: seq<Citation>, t: seq<Citation>)
    requires multiset(s) == multiset(t) && DistinctKeys(s)
    ensures DistinctKeys(t)
  {
    hide ProvisionKey;
    forall i, j | 0 <= i < j < |t|
      ensures ProvisionKey(t[i]) != ProvisionKey(t[j])
    {
      if t[i] == t[j] {
        TwiceInList(t, i, j);
        assert multiset(s)[t[i]] >= 2;
        TwoPositions(s, t[i]);
      } else {
        SameElements(s, t);
        assert t[i] in s && t[j] in s;
      }
    }
  }

  lemma {:induction false} TwiceInList(t: seq<Citation>, i: nat, j: nat)
    requires i < j < |t| && t[i] == t[j]
    ensures multiset(t)[t[i]] >= 2
  {
    assert t == t[..i] + [t[i]] + t[i + 1..j] + [t[j]] + t[j + 1..];
  }

  lemma {:induction false} TwoPositions(s: seq<Citation>, x: Citation)
    requires multiset(s)[x] >= 2
    ensures exists i, j :: 0 <= i < j < |s| && s[i] == x && s[j] == x
  {
    assert s == [s[0]] + s[1..];
    if s[0] == x {
      assert x in multiset(s[1..]);
      var j :| 0 <= j < |s[1..]| && s[1..][j] == x;
      assert s[j + 1] == x;
    } else {
      TwoPositions(s[1..], x);
      var i, j :| 0 <= i < j < |s[1..]| && s[1..][i] == x && s[1..][j] == x;
      assert s[i + 1] == x && s[j + 1] == x;
    }
  }

  /** What the result is worth: exactly one citation per provision cited, a best one, by descending score. */
  lemma {:induction false} DeduplicateKeepsBest(cs: seq<Citation>)
    ensures IsBestPerProvision(Deduplicate(cs), cs) && IsSortedByScore(Deduplicate(cs))
  {
    hide ProvisionKey, IsBetter, BestByProvision, Sort, DistinctKeys;
    var best, r := BestByProvision(cs), Deduplicate(cs);
    BestIsBest(cs);
    HigherScoreIsWeakOrder();
    SortIsSorted(best, HigherScore());
    SameElements(best, r);
    DistinctKeysArePermutable(best, r);
    forall c | c in cs
      ensures HasNoBetter(r, c)
    {
      assert HasNoBetter(best, c);
    }
  }

  /**
    * What "best" means: the citation kept for a provision is a clause whenever any of them is one, and has the highest
    * score among those of its own evidence type.
    */
  lemma {:induction false} KeptIsClauseFirstThenScore(cs: seq<Citation>, c: Citation) returns (b: Citation)
    requires c in cs
    ensures b in Deduplicate(cs) && ProvisionKey(b) == ProvisionKey(c)
    ensures c.evidenceType == Clause ==> b.evidenceType == Clause
    ensures c.evidenceType == b.evidenceType ==> c.score <= b.score
  {
    hide ProvisionKey, Deduplicate;
    b := BestFor(cs, c);
  }

  /** Position `p` of the input holds `b`, and `b` beats every earlier citation of its provision. */
  ghost predicate IsFirstBestAt(cs: seq<Citation>, b: Citation, p: nat) {
    && p < |cs| && cs[p] == b
    && forall q :: 0 <= q < p && ProvisionKey(cs[q]) == ProvisionKey(b) ==>
                     || (b.evidenceType == Clause && cs[q].evidenceType == Chunk)
                     || (b.evidenceType == cs[q].evidenceType && b.score > cs[q].score)
  }

  ghost predicate IsFirstBest(cs: seq<Citation>, b: Citation) {
    exists p: nat :: IsFirstBestAt(cs, b, p)
  }

  lemma {:induction false} FirstBestGoesOn(cs: seq<Citation>, b: Citation, c: Citation)
    requires IsFirstBest(cs, b)
    ensures IsFirstBest(cs + [c], b)
  {
    hide ProvisionKey;
    var p: nat :| IsFirstBestAt(cs, b, p);
    assert forall q :: 0 <= q <= p ==> (cs + [c])[q] == cs[q];
    assert IsFirstBestAt(cs + [c], b, p);
  }

  lemma {:induction false} NewBestIsFirst(cs: seq<Citation>, c: Citation)
    requires forall d :: d in cs && ProvisionKey(d) == ProvisionKey(c) ==> IsBetter(c, d)
    ensures IsFirstBest(cs + [c], c)
  {
    hide ProvisionKey;
    assert forall q :: 0 <= q < |cs| ==> (cs + [c])[q] == cs[q] && cs[q] in cs;
    assert IsFirstBestAt(cs + [c], c, |cs|);
  }

  /** The citation entered is better than everything seen of its provision: better than what no earlier one beats. */
  lemma {:induction false} BetterThanAll(cs: seq<Citation>, c: Citation, e: Citation)
    requires IsBestPerProvision(BestByProvision(cs), cs)
    requires e in BestByProvision(cs) && ProvisionKey(e) == ProvisionKey(c) && IsBetter(c, e)
    ensures forall d :: d in cs && ProvisionKey(d) == ProvisionKey(c) ==> IsBetter(c, d)
  {
    hide ProvisionKey, BestByProvision;
    forall d | d in cs && ProvisionKey(d) == ProvisionKey(c)
      ensures IsBetter(c, d)
    {
      assert HasNoBetter(BestByProvision(cs), d);
      var b :| b in BestByProvision(cs) && ProvisionKey(b) == ProvisionKey(d) && !IsBetter(d, b);
      OnePerKey(BestByProvision(cs), b, e);
    }
  }

  lemma {:induction false} NewProvision(cs: seq<Citation>, c: Citation)
    requires IsBestPerProvision(BestByProvision(cs), cs)
    requires forall b :: b in BestByProvision(cs) ==> ProvisionKey(b) != ProvisionKey(c)
    ensures forall d :: d in cs ==> ProvisionKey(d) != ProvisionKey(c)
  {
    hide ProvisionKey, BestByProvision, IsBetter;
    forall d | d in cs
      ensures ProvisionKey(d) != ProvisionKey(c)
    {
      assert HasNoBetter(BestByProvision(cs), d);
    }
  }

  function Keys(cs: seq<Citation>): (r: seq<string>)
    ensures |r| == |cs|
  {
    Map(ProvisionKey, cs)
  }

  lemma {:induction false} KeysAfterRecord(entries: seq<Citation>, c: Citation)
    ensures Keys(Record(entries, c))
            == if ProvisionKey(c) in Keys(entries) then Keys(entries) else Keys(entries) + [ProvisionKey(c)]
  {
    hide ProvisionKey, IsBetter, Record;
    var i := RecordAt(entries, c);
    if i < |entries| {
      assert Keys(entries)[i] == ProvisionKey(c);
    } else {
      assert forall k :: 0 <= k < |entries| ==> Keys(entries)[k] == ProvisionKey(entries[k]);
    }
  }

  /** The Map's keys come in the order in which they first occur. */
  lemma {:induction false} KeysAreFirsts(cs: seq<Citation>)
    ensures Keys(BestByProvision(cs)) == Firsts(Keys(cs))
  {
    hide ProvisionKey, Record;
    if cs != [] {
      var front, c := cs[..|cs| - 1], cs[|cs| - 1];
      KeysAreFirsts(front);
      FirstsInOrder(Keys(front));
      assert Keys(cs)[..|cs| - 1] == Keys(front) && Keys(cs)[|cs| - 1] == ProvisionKey(c);
      KeysAfterRecord(BestByProvision(front), c);
    }
  }

  lemma {:induction false} RecordedIsFirstBest(cs: seq<Citation>, c: Citation)
    requires IsBestPerProvision(BestByProvision(cs), cs)
    ensures c in Record(BestByProvision(cs), c) && c !in BestByProvision(cs) ==> IsFirstBest(cs + [c], c)
    ensures forall b :: b in Record(BestByProvision(cs), c) ==> b == c || b in BestByProvision(cs)
  {
    hide ProvisionKey, IsBetter, Record, IsFirstBest, BestByProvision, IsBestPerProvision;
    var entries := BestByProvision(cs);
    var i := RecordAt(entries, c);
    if i == |entries| {
      NewProvision(cs, c);
      NewBestIsFirst(cs, c);
    } else if IsBetter(c, entries[i]) {
      BetterThanAll(cs, c, entries[i]);
      NewBestIsFirst(cs, c);
    }
  }

  /** The Map holds the first of the best citations of every provision. */
  lemma {:induction false} EntriesAreFirstBest(cs: seq<Citation>)
    ensures forall b :: b in BestByProvision(cs) ==> IsFirstBest(cs, b)
  {
    hide Record, IsFirstBest, IsBestPerProvision;
    if cs != [] {
      var front, c := cs[..|cs| - 1], cs[|cs| - 1];
      assert cs == front + [c];
      EntriesAreFirstBest(front);
      BestIsBest(front);
      RecordedIsFirstBest(front, c);
      forall b | b in BestByProvision(cs)
        ensures IsFirstBest(cs, b)
      {
        if b in BestByProvision(front) {
          FirstBestGoesOn(front, b, c);
        }
      }
    }
  }

  /**
    * Ties: of equally good citations of one provision the first is kept, and of equal scores the provision that was
    * cited first comes first.
    */
  lemma {:induction false} TiesGoToTheFirst(cs: seq<Citation>, i: nat)
    requires i < |Deduplicate(cs)|
    ensures IsFirstBest(cs, Deduplicate(cs)[i])
    ensures forall j :: i < j < |Deduplicate(cs)| && Deduplicate(cs)[i].score == Deduplicate(cs)[j].score ==>
              OccursBefore(Keys(cs), ProvisionKey(Deduplicate(cs)[i]), ProvisionKey(Deduplicate(cs)[j]))
  {
    hide ProvisionKey, BestByProvision, Sort, IsFirstBest, OccursBefore;
    var best, r := BestByProvision(cs), Deduplicate(cs);
    EntriesAreFirstBest(cs);
    KeysAreFirsts(cs);
    FirstsInOrder(Keys(cs));
    HigherScoreIsWeakOrder();
    SortIsSorted(best, HigherScore());
    SameElements(best, r);
    assert r[i] in best;
    forall j | i < j < |r| && r[i].score == r[j].score
      ensures OccursBefore(Keys(cs), ProvisionKey(r[i]), ProvisionKey(r[j]))
    {
      TiesKeepOrder(best, HigherScore(), i, j);
      var p, q :| 0 <= p < q < |best| && best[p] == r[i] && best[q] == r[j];
      assert Keys(best)[p] == ProvisionKey(r[i]) && Keys(best)[q] == ProvisionKey(r[j]);
    }
  }

  lemma {:induction false} BestOfDistinct(cs: seq<Citation>)
    requires DistinctKeys(cs)
    ensures BestByProvision(cs) == cs
  {
    hide ProvisionKey, IsBetter, Record;
    if cs != [] {
      var front := cs[..|cs| - 1];
      BestOfDistinct(front);
      var i := RecordAt(front, cs[|cs| - 1]);
      assert cs == front + [cs[|cs| - 1]];
    }
  }

  lemma {:induction false} DeduplicateIsIdempotent(cs: seq<Citation>)
    ensures Deduplicate(Deduplicate(cs)) == Deduplicate(cs)
  {
    hide ProvisionKey, IsBetter, BestByProvision, Sort;
    DeduplicateKeepsBest(cs);
    BestOfDistinct(Deduplicate(cs));
    SortOfSorted(Deduplicate(cs), HigherScore());
  }

  /** The order of the input does not decide which evidence type and score a provision ends up with. */
  lemma {:induction false} OrderDoesNotMatter(cs: seq<Citation>, ds: seq<Citation>, b: Citation)
    requires multiset(cs) == multiset(ds) && b in Deduplicate(cs)
    ensures exists d :: d in Deduplicate(ds) && ProvisionKey(d) == ProvisionKey(b)
                        && d.evidenceType == b.evidenceType && d.score == b.score
  {
    hide ProvisionKey, IsBestPerProvision, Deduplicate, IsBetter;
    SameElements(cs, ds);
    InInput(cs, b);
    var d := BestFor(ds, b);
    InInput(ds, d);
    var b' := BestFor(cs, d);
    DeduplicateKeepsBest(cs);
    OnePerKey(Deduplicate(cs), b, b');
    NeitherBetter(b, d);
  }

  lemma {:induction false} InInput(cs: seq<Citation>, b: Citation)
    requires b in Deduplicate(cs)
    ensures b in cs && DistinctKeys(Deduplicate(cs))
  {
    hide ProvisionKey, Deduplicate, IsBetter, HasNoBetter;
    DeduplicateKeepsBest(cs);
  }

  lemma {:induction false} BestFor(cs: seq<Citation>, c: Citation) returns (b: Citation)
    requires c in cs
    ensures b in Deduplicate(cs) && ProvisionKey(b) == ProvisionKey(c) && !IsBetter(c, b)
  {
    hide ProvisionKey, Deduplicate, IsBetter, DistinctKeys;
    DeduplicateKeepsBest(cs);
    assert HasNoBetter(Deduplicate(cs), c);
    b :| b in Deduplicate(cs) && ProvisionKey(b) == ProvisionKey(c) && !IsBetter(c, b);
  }

  lemma {:induction false} NeitherBetter(c: Citation, d: Citation)
    requires !IsBetter(c, d) && !IsBetter(d, c)
    ensures c.evidenceType == d.evidenceType && c.score == d.score
  {
  }

  lemma {:induction false} OnePerKey(best: seq<Citation>, b: Citation, c: Citation)
    requires DistinctKeys(best) && b in best && c in best && ProvisionKey(b) == ProvisionKey(c)
    ensures b == c
  {
    hide ProvisionKey;
  }

  // ----- the code -----

  /** The Map as the code updates it: the keys in insertion order, and the citation held for each. */
  ghost predicate Holds(entries: seq<Citation>, order: seq<string>, byProvision: map<string, Citation>) {
    && |order| == |entries| && DistinctKeys(entries)
    && (forall i :: 0 <= i < |order| ==>
          order[i] == ProvisionKey(entries[i]) && order[i] in byProvision && byProvision[order[i]] == entries[i])
    && (forall k :: k in byProvision ==> k in order)
  }

  lemma {:induction false} StillHolds(
      entries: seq<Citation>, order: seq<string>, byProvision: map<string, Citation>, c: Citation)
    requires Holds(entries, order, byProvision)
    ensures var key := ProvisionKey(c);
            if key !in byProvision then Holds(Record(entries, c), order + [key], byProvision[key := c])
            else if IsBetter(c, byProvision[key]) then Holds(Record(entries, c), order, byProvision[key := c])
            else Holds(Record(entries, c), order, byProvision)
  {
    hide ProvisionKey, IsBetter, Record;
    var i := RecordAt(entries, c);
    if ProvisionKey(c) in byProvision {
      var k :| 0 <= k < |order| && order[k] == ProvisionKey(c);
      assert k == i;
    } else {
      assert i == |entries|;
    }
  }

  lemma {:induction false} NothingHeld()
    ensures Holds([], [], map[])
  {
  }

  lemma {:induction false} HeldInOrder(entries: seq<Citation>, order: seq<string>, byProvision: map<string, Citation>)
    requires Holds(entries, order, byProvision)
    ensures |order| == |entries|
    ensures forall i :: 0 <= i < |order| ==> order[i] in byProvision && byProvision[order[i]] == entries[i]
  {
    hide ProvisionKey;
  }

  method DeduplicateBySameProvision(citations: seq<Citation>) returns (result: seq<Citation>)
    ensures result == Deduplicate(citations)
  {
    hide ProvisionKey, IsBetter, Record, Sort, Holds;
    NothingHeld();
    var byProvision: map<string, Citation> := map[];
    var order: seq<string> := [];
    ghost var entries: seq<Citation> := [];
    for n := 0 to |citations|
      invariant entries == BestByProvision(citations[..n])
      invariant Holds(entries, order, byProvision)
    {
      var citation := citations[n];
      var key := ProvisionKey(citation);
      assert citations[..n + 1][..n] == citations[..n];
      StillHolds(entries, order, byProvision, citation);
      if key !in byProvision {
        byProvision := byProvision[key := citation];
        order := order + [key];
      } else {
        var existing := byProvision[key];
        if IsBetter(citation, existing) {
          byProvision := byProvision[key := citation];
        }
      }
      entries := Record(entries, citation);
    }
    assert citations[..|citations|] == citations;
    HeldInOrder(entries, order, byProvision);
    var values := [];
    for n := 0 to |order|
      invariant values == entries[..n]
    {
      values := values + [byProvision[order[n]]];
    }
    assert entries[..|order|] == entries;
    result := Sort(values, HigherScore());
  }
}
