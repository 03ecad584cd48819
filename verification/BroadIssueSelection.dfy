/**
  * Issue grouping and selection (src/domain/ai/broad-issue-selection.ts) and the per-issue markers of the prompt
  * skeleton (src/domain/ai/prompt-builder.ts).
  */
module BroadIssueSelection {
  import opened JsText
  import opened Seqs
  import opened StableSort
  import opened CitationMarker
  import opened CitationProvision
  import opened CitationRequired

  datatype IssueTier = Material | Neutral | Boilerplate

  datatype IssueCategory =
    | TerminationPenalty | PaymentDelayInterest | AutoRenewal | LiabilityCap | IndemnityDamages
    | UnilateralRight | ExclusivityNoncompete | IpOwnership | SurvivalDuration
    | GoverningLawVenue
    | BoilerplateConfidentiality | BoilerplateAssignment | BoilerplateNotice | BoilerplateGeneral
    | Other

  function TierOf(category: IssueCategory): IssueTier {
    match category
    case GoverningLawVenue => Neutral
    case Other => Neutral
    case BoilerplateConfidentiality => Boilerplate
    case BoilerplateAssignment => Boilerplate
    case BoilerplateNotice => Boilerplate
    case BoilerplateGeneral => Boilerplate
    case _ => Material
  }

  function TierRank(tier: IssueTier): nat {
    match tier
    case Material => 2
    case Neutral => 1
    case Boilerplate => 0
  }

  datatype IssueGroup = IssueGroup(category: IssueCategory, tier: IssueTier, citations: seq<Citation>, maxScore: real)

  /** The keyword classifier, as far as grouping depends on it. */
  type Classifier = Citation -> IssueCategory

  // ----- grouping -----

  function NewGroup(c: Citation, classify: Classifier): IssueGroup {
    IssueGroup(classify(c), TierOf(classify(c)), [c], c.score)
  }

  function Extended(g: IssueGroup, c: Citation): IssueGroup {
    g.(citations := g.citations + [c], maxScore := if c.score > g.maxScore then c.score else g.maxScore)
  }

  /** The Map of groups in insertion order, after one more citation. */
  function AddToGroups(groups: seq<IssueGroup>, c: Citation, classify: Classifier): seq<IssueGroup> {
    if groups == [] then [NewGroup(c, classify)]
    else if groups[0].category == classify(c) then [Extended(groups[0], c)] + groups[1..]
    else [groups[0]] + AddToGroups(groups[1..], c, classify)
  }

  function GroupByIssue(cs: seq<Citation>, classify: Classifier): seq<IssueGroup> {
    if cs == [] then [] else AddToGroups(GroupByIssue(cs[..|cs| - 1], classify), cs[|cs| - 1], classify)
  }

  function OfCategory(cs: seq<Citation>, category: IssueCategory, classify: Classifier): seq<Citation> {
    if cs == [] then []
    else OfCategory(cs[..|cs| - 1], category, classify) + if classify(cs[|cs| - 1]) == category then [cs[|cs| - 1]] else []
  }

  ghost predicate IsMaxScore(score: real, cs: seq<Citation>) {
    (forall c :: c in cs ==> c.score <= score) && exists c :: c in cs && c.score == score
  }

  /** A group holds exactly the citations of its category, in their order, with that category's tier and top score. */
  ghost predicate IsGroupOf(g: IssueGroup, cs: seq<Citation>, classify: Classifier) {
    && g.citations == OfCategory(cs, g.category, classify) && g.citations != []
    && g.tier == TierOf(g.category) && IsMaxScore(g.maxScore, g.citations)
  }

  ghost predicate DistinctCategories(groups: seq<IssueGroup>) {
    forall i, j :: 0 <= i < j < |groups| ==> groups[i].category != groups[j].category
  }

  ghost predicate HasGroup(groups: seq<IssueGroup>, category: IssueCategory) {
    exists i :: 0 <= i < |groups| && groups[i].category == category
  }

  /** The groups partition the citations by category. */
  ghost predicate IsPartition(groups: seq<IssueGroup>, cs: seq<Citation>, classify: Classifier) {
    && DistinctCategories(groups)
    && (forall i :: 0 <= i < |groups| ==> IsGroupOf(groups[i], cs, classify))
    && (forall c :: c in cs ==> HasGroup(groups, classify(c)))
  }

  lemma {:induction false} AddedAt(groups: seq<IssueGroup>, c: Citation, classify: Classifier) returns (i: nat)
    ensures i <= |groups| && forall k :: 0 <= k < i ==> groups[k].category != classify(c)
    ensures i < |groups| ==> groups[i].category == classify(c)
    ensures AddToGroups(groups, c, classify)
            == if i == |groups| then groups + [NewGroup(c, classify)] else groups[i := Extended(groups[i], c)]
  {
    hide NewGroup, Extended;
    if groups == [] || groups[0].category == classify(c) {
      i := 0;
    } else {
      var k := AddedAt(groups[1..], c, classify);
      i := k + 1;
      assert groups == [groups[0]] + groups[1..];
      assert AddToGroups(groups, c, classify) == [groups[0]] + AddToGroups(groups[1..], c, classify);
    }
  }

  lemma {:induction false} NoneOfCategory(cs: seq<Citation>, category: IssueCategory, classify: Classifier)
    requires forall c :: c in cs ==> classify(c) != category
    ensures OfCategory(cs, category, classify) == []
  {
    if cs != [] {
      NoneOfCategory(cs[..|cs| - 1], category, classify);
    }
  }

  lemma {:induction false} GroupAfterAdding(g: IssueGroup, cs: seq<Citation>, c: Citation, classify: Classifier)
    requires IsGroupOf(g, cs, classify)
    ensures g.category == classify(c) ==> IsGroupOf(Extended(g, c), cs + [c], classify)
    ensures g.category != classify(c) ==> IsGroupOf(g, cs + [c], classify)
  {
    assert (cs + [c])[..|cs|] == cs;
    if g.category == classify(c) {
      var e := Extended(g, c);
      var top :| top in g.citations && top.score == g.maxScore;
      assert top in e.citations && c in e.citations;
    }
  }

  lemma {:induction false} FreshGroup(cs: seq<Citation>, c: Citation, classify: Classifier)
    requires forall d :: d in cs ==> classify(d) != classify(c)
    ensures IsGroupOf(NewGroup(c, classify), cs + [c], classify)
  {
    assert (cs + [c])[..|cs|] == cs;
    NoneOfCategory(cs, classify(c), classify);
    assert c in [c];
  }

  lemma {:induction false} AddedIsPartition(
      groups: seq<IssueGroup>, cs: seq<Citation>, c: Citation, classify: Classifier)
    requires IsPartition(groups, cs, classify)
    ensures IsPartition(AddToGroups(groups, c, classify), cs + [c], classify)
  {
    hide IsGroupOf, AddToGroups, Extended, NewGroup;
    var after := AddToGroups(groups, c, classify);
    var i := AddedAt(groups, c, classify);
    ExtendedKeepsCategory(groups, c);
    NewGroupHasCategory(c, classify);
    forall k | 0 <= k < |after|
      ensures IsGroupOf(after[k], cs + [c], classify)
    {
      if k < |groups| {
        GroupAfterAdding(groups[k], cs, c, classify);
      } else {
        NoGroupNoCitation(groups, cs, c, classify);
        FreshGroup(cs, c, classify);
      }
    }
    forall d | d in cs + [c]
      ensures HasGroup(after, classify(d))
    {
      if d in cs {
        var k :| 0 <= k < |groups| && groups[k].category == classify(d);
        assert after[k].category == classify(d);
      } else {
        assert after[i].category == classify(c);
      }
    }
  }

  /** Grouping loses no citation and puts each with its category: one group per issue, never two. */
  lemma {:induction false} GroupsPartition(cs: seq<Citation>, classify: Classifier)
    ensures IsPartition(GroupByIssue(cs, classify), cs, classify)
  {
    hide IsGroupOf, AddToGroups, HasGroup;
    if cs != [] {
      var front, c := cs[..|cs| - 1], cs[|cs| - 1];
      assert cs == front + [c];
      GroupsPartition(front, classify);
      AddedIsPartition(GroupByIssue(front, classify), front, c, classify);
    }
  }

  lemma {:induction false} ExtendedKeepsCategory(groups: seq<IssueGroup>, c: Citation)
    ensures forall k :: 0 <= k < |groups| ==> Extended(groups[k], c).category == groups[k].category
  {
  }

  lemma {:induction false} NoGroupNoCitation(
      groups: seq<IssueGroup>, cs: seq<Citation>, c: Citation, classify: Classifier)
    requires IsPartition(groups, cs, classify) && forall k :: 0 <= k < |groups| ==> groups[k].category != classify(c)
    ensures forall d :: d in cs ==> classify(d) != classify(c)
  {
    forall d | d in cs
      ensures classify(d) != classify(c)
    {
      assert HasGroup(groups, classify(d));
    }
  }

  /** Groups are not sorted: their citations descend in score because those of the input do. */
  lemma {:induction false} GroupsInScoreOrder(cs: seq<Citation>, category: IssueCategory, classify: Classifier)
    requires IsSortedByScore(cs)
    ensures IsSortedByScore(OfCategory(cs, category, classify))
    ensures forall c :: c in OfCategory(cs, category, classify) ==> c in cs
  {
    if cs != [] {
      var front := cs[..|cs| - 1];
      assert cs == front + [cs[|cs| - 1]];
      GroupsInScoreOrder(front, category, classify);
      assert forall c :: c in front ==> c.score >= cs[|cs| - 1].score;
    }
  }

  function CitationsOf(groups: seq<IssueGroup>): seq<Citation> {
    if groups == [] then [] else groups[0].citations + CitationsOf(groups[1..])
  }

  lemma {:induction false} AddingAddsOne(groups: seq<IssueGroup>, c: Citation, classify: Classifier)
    ensures multiset(CitationsOf(AddToGroups(groups, c, classify))) == multiset(CitationsOf(groups)) + multiset{c}
  {
    if groups == [] {
      assert AddToGroups(groups, c, classify)[1..] == [];
    } else if groups[0].category == classify(c) {
      assert AddToGroups(groups, c, classify)[1..] == groups[1..];
    } else {
      AddingAddsOne(groups[1..], c, classify);
      assert AddToGroups(groups, c, classify)[1..] == AddToGroups(groups[1..], c, classify);
    }
  }

  lemma {:induction false} GroupsConserveCitations(cs: seq<Citation>, classify: Classifier)
    ensures multiset(CitationsOf(GroupByIssue(cs, classify))) == multiset(cs)
  {
    hide AddToGroups;
    if cs != [] {
      GroupsConserveCitations(cs[..|cs| - 1], classify);
      AddingAddsOne(GroupByIssue(cs[..|cs| - 1], classify), cs[|cs| - 1], classify);
      assert cs == cs[..|cs| - 1] + [cs[|cs| - 1]];
    }
  }

  function Categories(groups: seq<IssueGroup>): (r: seq<IssueCategory>)
    ensures |r| == |groups| && forall i :: 0 <= i < |groups| ==> r[i] == groups[i].category
  {
    seq(|groups|, i requires 0 <= i < |groups| => groups[i].category)
  }

  /** The groups come in the order in which their categories first occur. */
  lemma {:induction false} GroupsInOrderOfFirstCitation(cs: seq<Citation>, classify: Classifier)
    ensures Categories(GroupByIssue(cs, classify)) == Firsts(Map(classify, cs))
  {
    hide AddToGroups, Extended, NewGroup;
    if cs != [] {
      var front, c := cs[..|cs| - 1], cs[|cs| - 1];
      var groups := GroupByIssue(front, classify);
      GroupsInOrderOfFirstCitation(front, classify);
      FirstsInOrder(Map(classify, front));
      var all := Map(classify, cs);
      assert all[..|all| - 1] == Map(classify, front) && all[|all| - 1] == classify(c);
      var i := AddedAt(groups, c, classify);
      ExtendedKeepsCategory(groups, c);
      NewGroupHasCategory(c, classify);
      var after := Categories(AddToGroups(groups, c, classify));
      if i < |groups| {
        assert Categories(groups)[i] == classify(c);
        assert after == Categories(groups);
      } else {
        assert classify(c) !in Categories(groups);
        assert after == Categories(groups) + [classify(c)];
      }
    }
  }

  /** The Map as the code updates it: categories in insertion order, and the group held for each. */
  ghost predicate Holds(
      groups: seq<IssueGroup>, order: seq<IssueCategory>, byCategory: map<IssueCategory, IssueGroup>) {
    && |order| == |groups| && DistinctCategories(groups)
    && (forall i :: 0 <= i < |order| ==>
          order[i] == groups[i].category && order[i] in byCategory && byCategory[order[i]] == groups[i])
    && (forall k :: k in byCategory ==> k in order)
  }

  lemma {:induction false} StillHolds(
    groups: seq<IssueGroup>, order: seq<IssueCategory>, byCategory: map<IssueCategory, IssueGroup>, c: Citation,
      classify: Classifier)
    requires Holds(groups, order, byCategory)
    ensures var category := classify(c);
            if category in byCategory
            then Holds(AddToGroups(groups, c, classify), order, byCategory[category := Extended(byCategory[category], c)])
            else Holds(AddToGroups(groups, c, classify), order + [category], byCategory[category := NewGroup(c, classify)])
  {
    hide NewGroup, Extended, AddToGroups;
    var i := AddedAt(groups, c, classify);
    ExtendedKeepsCategory(groups, c);
    NewGroupHasCategory(c, classify);
    if classify(c) in byCategory {
      var k :| 0 <= k < |order| && order[k] == classify(c);
      assert k == i;
    } else {
      assert i == |groups|;
    }
  }

  method GroupCitationsByIssue(citations: seq<Citation>, classify: Classifier) returns (groups: seq<IssueGroup>)
    ensures groups == GroupByIssue(citations, classify)
  {
    hide NewGroup, Extended, AddToGroups, Holds;
    var byCategory: map<IssueCategory, IssueGroup> := map[];
    var order: seq<IssueCategory> := [];
    ghost var entries: seq<IssueGroup> := [];
    assert Holds([], [], map[]) by { NothingHeld(); }
    for n := 0 to |citations|
      invariant entries == GroupByIssue(citations[..n], classify) && Holds(entries, order, byCategory)
    {
      var citation := citations[n];
      var category := classify(citation);
      assert citations[..n + 1][..n] == citations[..n];
      StillHolds(entries, order, byCategory, citation, classify);
      if category in byCategory {
        byCategory := byCategory[category := Extended(byCategory[category], citation)];
      } else {
        byCategory := byCategory[category := NewGroup(citation, classify)];
        order := order + [category];
      }
      entries := AddToGroups(entries, citation, classify);
    }
    assert citations[..|citations|] == citations;
    groups := GroupValues(entries, order, byCategory);
  }

  lemma {:induction false} NothingHeld()
    ensures Holds([], [], map[])
  {
  }

  /** `[...groups.values()]`. */
  method GroupValues(
      ghost entries: seq<IssueGroup>, order: seq<IssueCategory>, byCategory: map<IssueCategory, IssueGroup>)
    returns (groups: seq<IssueGroup>)
    requires Holds(entries, order, byCategory)
    ensures groups == entries
  {
    groups := [];
    for n := 0 to |order|
      invariant groups == entries[..n]
    {
      groups := groups + [byCategory[order[n]]];
    }
    assert entries[..|order|] == entries;
  }

  lemma {:induction false} NewGroupHasCategory(c: Citation, classify: Classifier)
    ensures NewGroup(c, classify).category == classify(c)
  {
  }

  // ----- the requested number of issues: /(\d+)\s*개/ -----

  const DEFAULT_MAX_ISSUE_GROUPS := 4
  const MAX_SAFE_REQUESTED_ISSUE_GROUPS := 8

  function CountAt(question: string, p: nat): Option<nat>
    requires p <= |question|
  {
    var b := RunEnd(question, p, IsDigit);
    var e := RunEnd(question, b, IsSpace);
    if p < b && e < |question| && question[e] == '개' then Some(NumberOf(question[p..b])) else None
  }

  function FirstCount(question: string, from: nat): Option<nat>
    requires from <= |question|
    decreases |question| - from
  {
    if CountAt(question, from).Some? || from == |question| then CountAt(question, from) else FirstCount(question, from + 1)
  }

  function BoundedCount(requested: Option<nat>): Option<nat> {
    match requested
    case None => None
    case Some(n) =>
      if n < 1 then None else Some(if n < MAX_SAFE_REQUESTED_ISSUE_GROUPS then n else MAX_SAFE_REQUESTED_ISSUE_GROUPS)
  }

  lemma {:induction false} BoundedCountIs(n: nat)
    ensures BoundedCount(NumberFrom(n)) == if n == 0 || NumberFrom(n).None? then None else Some(if n <= 8 then n else 8)
  {
    hide NumberFrom;
    if n < EXACT_INTEGERS {
      SmallIntegersAreExact(n);
    } else if NumberFrom(n).Some? {
      LargeIntegersStayLarge(n);
    }
  }

  function ParseExplicitRequestedIssueCount(question: string): Option<nat> {
    match FirstCount(question, 0)
    case None => None
    case Some(n) => BoundedCount(NumberFrom(n))
  }

  /** No count is written at any of the positions `from..to`. */
  ghost predicate NoCountIn(question: string, from: nat, to: nat)
    requires to <= |question| + 1
  {
    forall k :: from <= k < to ==> CountAt(question, k).None?
  }

  lemma {:induction false} SkipToCount(question: string, from: nat, p: nat)
    requires from <= p <= |question| && NoCountIn(question, from, p)
    ensures FirstCount(question, from) == FirstCount(question, p)
    decreases p - from
  {
    hide CountAt;
    if from < p {
      SkipToCount(question, from + 1, p);
    }
  }

  /**
    * The first number that is followed by the counter word, with or without whitespace between them, is the requested
    * count, at most eight; zero and an infinite number request nothing. Other digits may stand before it, and anything
    * after it.
    */
  lemma {:induction false} RequestedCountIsRead(before: string, n: nat, blank: string, after: string)
    requires Blank(blank, 0, |blank|) && NoCountIn(before + Decimal(n) + blank + "개" + after, 0, |before|)
    ensures ParseExplicitRequestedIssueCount(before + Decimal(n) + blank + "개" + after)
            == if n == 0 || NumberFrom(n).None? then None else Some(if n <= 8 then n else 8)
  {
    hide CountAt, Decimal, NoCountIn, NumberFrom, BoundedCount;
    BoundedCountIs(n);
    var question := before + Decimal(n) + blank + "개" + after;
    SkipToCount(question, 0, |before|);
    CountIsRead(before, n, blank, after);
  }

  lemma {:induction false} CountIsRead(before: string, n: nat, blank: string, after: string)
    requires Blank(blank, 0, |blank|)
    ensures CountAt(before + Decimal(n) + blank + "개" + after, |before|) == Some(n)
  {
    hide NumberOf, IsSpace, Decimal, RunEnd;
    var d := Decimal(n);
    var question := before + d + blank + "개" + after;
    var p, b, e := |before|, |before| + |d|, |before| + |d| + |blank|;
    assert forall k :: p <= k < b ==> question[k] == d[k - p];
    assert forall k :: b <= k < e ==> question[k] == blank[k - b];
    assert question[e] == '개' && question[b] == if blank == "" then '개' else blank[0];
    assert !IsSpace('개') && !IsDigit('개') by { CounterIsLetter(); }
    SpaceIsNoDigit(blank);
    RunEndIs(question, p, b, IsDigit);
    RunEndIs(question, b, e, IsSpace);
    assert question[p..b] == d;
    NumberOfDecimal(n);
  }

  /** Digits, optional whitespace and the counter word stand at position `p`. */
  ghost predicate IsWrittenCount(question: string, p: nat, digits: string, blank: string) {
    && p <= |question| && digits != "" && AllDigits(digits) && Blank(blank, 0, |blank|)
    && digits + blank + "개" <= question[p..]
  }

  /** A count is read at a position exactly when one is written there, and it is the written number. */
  lemma {:induction false} CountAtExactly(question: string, p: nat)
    requires p <= |question|
    ensures CountAt(question, p).Some? <==> exists digits, blank :: IsWrittenCount(question, p, digits, blank)
    ensures forall digits, blank :: IsWrittenCount(question, p, digits, blank) ==>
              CountAt(question, p) == Some(NumberOf(digits))
  {
    hide CountAt, NumberOf, IsSpace;
    if CountAt(question, p).Some? {
      ReadCountIsWritten(question, p);
    }
    forall digits, blank | IsWrittenCount(question, p, digits, blank)
      ensures CountAt(question, p) == Some(NumberOf(digits))
    {
      WrittenCountIsRead(question, p, digits, blank);
    }
  }

  lemma {:induction false} ReadCountIsWritten(question: string, p: nat)
    requires p <= |question| && CountAt(question, p).Some?
    ensures exists digits, blank :: IsWrittenCount(question, p, digits, blank)
  {
    hide IsSpace, RunEnd;
    var b := RunEnd(question, p, IsDigit);
    var e := RunEnd(question, b, IsSpace);
    assert question[p..] == question[p..b] + question[b..e] + [question[e]] + question[e + 1..];
    assert IsWrittenCount(question, p, question[p..b], question[b..e]);
  }

  lemma {:induction false} WrittenCountIsRead(question: string, p: nat, digits: string, blank: string)
    requires IsWrittenCount(question, p, digits, blank)
    ensures CountAt(question, p) == Some(NumberOf(digits))
  {
    hide NumberOf, IsSpace, RunEnd;
    var w := digits + blank + "개";
    var b := p + |digits|;
    var e := b + |blank|;
    assert forall k :: 0 <= k < |w| ==> question[p + k] == question[p..][k] == w[k];
    assert forall k :: p <= k < b ==> question[k] == w[k - p] == digits[k - p];
    assert forall k :: b <= k < e ==> question[k] == w[k - p] == blank[k - b];
    assert question[e] == w[e - p] == '개' && question[b] == w[b - p] == if blank == "" then '개' else blank[0];
    assert !IsSpace('개') && !IsDigit('개') by { CounterIsLetter(); }
    SpaceIsNoDigit(blank);
    RunEndIs(question, p, b, IsDigit);
    RunEndIs(question, b, e, IsSpace);
    assert question[p..b] == digits;
  }

  lemma {:induction false} CounterIsLetter()
    ensures !IsSpace('개') && !IsDigit('개')
  {
  }

  // ----- ranking and selection -----

  function RanksBefore(): (IssueGroup, IssueGroup) -> bool {
    (a: IssueGroup, b: IssueGroup) =>
      TierRank(a.tier) > TierRank(b.tier) || (TierRank(a.tier) == TierRank(b.tier) && a.maxScore > b.maxScore)
  }

  lemma {:induction false} RanksBeforeIsWeakOrder()
    ensures IsWeakOrder(RanksBefore())
  {
  }

  datatype BroadIssueSelectionResult = BroadIssueSelectionResult(
    selectedCitations: seq<Citation>, allGroups: seq<IssueGroup>, selectedGroups: seq<IssueGroup>, exhaustive: bool)

  function MaxGroups(question: string): nat {
    match ParseExplicitRequestedIssueCount(question)
    case Some(n) => n
    case None => DEFAULT_MAX_ISSUE_GROUPS
  }

  function Select(question: string, exhaustive: bool, groups: seq<IssueGroup>): seq<IssueGroup> {
    var ranked := Sort(groups, RanksBefore());
    if exhaustive || |ranked| <= MaxGroups(question) then ranked else ranked[..MaxGroups(question)]
  }

  /** `selectBroadIssueCandidates`; `exhaustive` is the answer of `isExhaustiveReviewRequest`. */
  method SelectBroadIssueCandidates(question: string, exhaustive: bool, citations: seq<Citation>, classify: Classifier)
    returns (r: BroadIssueSelectionResult)
    ensures r.allGroups == GroupByIssue(citations, classify) && r.exhaustive == exhaustive
    ensures r.selectedGroups == Select(question, exhaustive, r.allGroups)
    ensures r.selectedCitations == CitationsOf(r.selectedGroups)
  {
    var allGroups := GroupCitationsByIssue(citations, classify);
    var ranked := Sort(allGroups, RanksBefore());
    if exhaustive {
      return BroadIssueSelectionResult(CitationsOf(ranked), allGroups, ranked, true);
    }
    var maxGroups := MaxGroups(question);
    var selectedGroups := if |ranked| <= maxGroups then ranked else ranked[..maxGroups];
    return BroadIssueSelectionResult(CitationsOf(selectedGroups), allGroups, selectedGroups, false);
  }

  /**
    * The selection is a top-ranked part of the groups: together with the rest it is all groups, nothing left out ranks
    * before anything selected, and between one and eight groups are taken as long as there are any.
    */
  lemma {:induction false} SelectionIsTopRanked(
      question: string, exhaustive: bool, groups: seq<IssueGroup>) returns (rest: seq<IssueGroup>)
    ensures multiset(Select(question, exhaustive, groups) + rest) == multiset(groups)
    ensures forall i, j :: 0 <= i < |Select(question, exhaustive, groups)| && 0 <= j < |rest| ==>
              !RanksBefore()(rest[j], Select(question, exhaustive, groups)[i])
    ensures IsSorted(Select(question, exhaustive, groups), RanksBefore())
    ensures exhaustive ==> rest == []
    ensures !exhaustive ==> |Select(question, exhaustive, groups)| <= 8
    ensures groups != [] ==> Select(question, exhaustive, groups) != []
  {
    hide FirstCount, Sort;
    var ranked := Sort(groups, RanksBefore());
    RanksBeforeIsWeakOrder();
    SortIsSorted(groups, RanksBefore());
    var selected := Select(question, exhaustive, groups);
    assert selected == ranked[..|selected|];
    rest := ranked[|selected|..];
    assert selected + rest == ranked;
  }

  /** Material issues come first whatever the scores, boilerplate last; within a tier the higher top score comes first. */
  lemma {:induction false} MaterialIssuesComeFirst(
      question: string, exhaustive: bool, groups: seq<IssueGroup>, i: nat, j: nat)
    requires i < j < |Select(question, exhaustive, groups)|
    ensures var earlier, later := Select(question, exhaustive, groups)[i], Select(question, exhaustive, groups)[j];
            && (later.tier == Material ==> earlier.tier == Material)
            && (earlier.tier == Boilerplate ==> later.tier == Boilerplate)
            && (earlier.tier == later.tier ==> earlier.maxScore >= later.maxScore)
  {
    hide Select;
    var rest := SelectionIsTopRanked(question, exhaustive, groups);
  }

  /**
    * The same by category, for the groups the code forms: the nine material categories, then venue clauses and what
    * matches nothing, then the four boilerplate ones.
    */
  lemma {:induction false} MaterialCategoriesComeFirst(
      question: string, exhaustive: bool, citations: seq<Citation>, classify: Classifier, i: nat, j: nat)
    requires i < j < |Select(question, exhaustive, GroupByIssue(citations, classify))|
    ensures var selected := Select(question, exhaustive, GroupByIssue(citations, classify));
            var material := {TerminationPenalty, PaymentDelayInterest, AutoRenewal, LiabilityCap, IndemnityDamages,
                             UnilateralRight, ExclusivityNoncompete, IpOwnership, SurvivalDuration};
            var neutral := {GoverningLawVenue, Other};
            var earlier, later := selected[i].category, selected[j].category;
            && (later in material ==> earlier in material)
            && (earlier !in material + neutral ==> later !in material + neutral)
            && ((earlier in material <==> later in material) && (earlier in neutral <==> later in neutral) ==>
                  selected[i].maxScore >= selected[j].maxScore)
  {
    hide Select, GroupByIssue;
    var groups := GroupByIssue(citations, classify);
    var selected := Select(question, exhaustive, groups);
    GroupsPartition(citations, classify);
    var rest := SelectionIsTopRanked(question, exhaustive, groups);
    SameElements(selected + rest, groups);
    assert selected[i] in selected + rest && selected[j] in selected + rest;
    assert IsGroupOf(selected[i], citations, classify) && IsGroupOf(selected[j], citations, classify);
    MaterialIssuesComeFirst(question, exhaustive, groups, i, j);
  }

  /** Of selected issues with equal tier and score, the one cited first comes first. */
  lemma {:induction false} TiedIssuesKeepOrder(
      question: string, exhaustive: bool, citations: seq<Citation>, classify: Classifier, i: nat, j: nat)
    requires i < j < |Select(question, exhaustive, GroupByIssue(citations, classify))|
    ensures var selected := Select(question, exhaustive, GroupByIssue(citations, classify));
            selected[i].tier == selected[j].tier && selected[i].maxScore == selected[j].maxScore ==>
              OccursBefore(Map(classify, citations), selected[i].category, selected[j].category)
  {
    hide GroupByIssue, FirstCount, Sort, OccursBefore;
    var groups := GroupByIssue(citations, classify);
    var selected := Select(question, exhaustive, groups);
    var ranked := Sort(groups, RanksBefore());
    assert selected == ranked[..|selected|];
    assert selected[i] == ranked[i] && selected[j] == ranked[j];
    RanksBeforeIsWeakOrder();
    GroupsInOrderOfFirstCitation(citations, classify);
    FirstsInOrder(Map(classify, citations));
    if selected[i].tier == selected[j].tier && selected[i].maxScore == selected[j].maxScore {
      TiesKeepOrder(groups, RanksBefore(), i, j);
      var p, q :| 0 <= p < q < |groups| && groups[p] == selected[i] && groups[q] == selected[j];
      assert Categories(groups)[p] == selected[i].category && Categories(groups)[q] == selected[j].category;
    }
  }

  function AtMost(n: nat, limit: nat): nat {
    if n <= limit then n else limit
  }

  /** Unless everything is asked for, four issues are selected when no number stands before the counter word. */
  lemma {:induction false} FourIssuesByDefault(question: string, groups: seq<IssueGroup>)
    requires NoCountIn(question, 0, |question| + 1)
    ensures |Select(question, false, groups)| == AtMost(|groups|, 4)
  {
    hide CountAt, Sort;
    SkipToCount(question, 0, |question|);
  }

  /** Otherwise the first such number decides: zero and infinity stand for four, and none counts for more than eight. */
  lemma {:induction false} FirstCountDecides(question: string, p: nat, n: nat, groups: seq<IssueGroup>)
    requires p <= |question| && NoCountIn(question, 0, p) && CountAt(question, p) == Some(n)
    ensures |Select(question, false, groups)|
            == AtMost(|groups|, if n == 0 || NumberFrom(n).None? then 4 else AtMost(n, 8))
  {
    hide CountAt, Sort, NumberFrom, BoundedCount;
    BoundedCountIs(n);
    SkipToCount(question, 0, p);
  }

  lemma {:induction false} CitationsOfConcat(xs: seq<IssueGroup>, ys: seq<IssueGroup>)
    ensures CitationsOf(xs + ys) == CitationsOf(xs) + CitationsOf(ys)
  {
    if xs == [] {
      assert xs + ys == ys;
    } else {
      CitationsOfConcat(xs[1..], ys);
      assert (xs + ys)[1..] == xs[1..] + ys;
      Associative(xs[0].citations, CitationsOf(xs[1..]), CitationsOf(ys));
    }
  }

  lemma {:induction false} CancelOne<T>(a: multiset<T>, b: multiset<T>, x: T)
    requires a + multiset{x} == b + multiset{x}
    ensures a == b
  {
    assert a == (a + multiset{x}) - multiset{x};
    assert b == (b + multiset{x}) - multiset{x};
  }

  lemma {:induction false} CitationsOfPulledOut(front: seq<IssueGroup>, x: IssueGroup, back: seq<IssueGroup>)
    ensures multiset(CitationsOf(front + [x] + back)) == multiset(x.citations) + multiset(CitationsOf(front + back))
  {
    assert front + [x] + back == front + ([x] + back);
    CitationsOfConcat(front, [x] + back);
    CitationsOfConcat(front, back);
    assert ([x] + back)[1..] == back;
  }

  lemma {:induction false} RemoveFromBoth(xs: seq<IssueGroup>, front: seq<IssueGroup>, back: seq<IssueGroup>)
    requires xs != [] && multiset(xs) == multiset(front + [xs[0]] + back)
    ensures multiset(xs[1..]) == multiset(front + back)
  {
    var x := xs[0];
    assert xs == [x] + xs[1..];
    assert multiset(xs[1..]) + multiset{x} == multiset(xs);
    assert multiset(front + back) + multiset{x} == multiset(front + [x] + back);
    CancelOne(multiset(xs[1..]), multiset(front + back), x);
  }

  lemma {:induction false} CitationsOfPermuted(xs: seq<IssueGroup>, ys: seq<IssueGroup>)
    requires multiset(xs) == multiset(ys)
    ensures multiset(CitationsOf(xs)) == multiset(CitationsOf(ys))
  {
    if xs == [] {
      SameElements(xs, ys);
    } else {
      SameElements(xs, ys);
      assert xs[0] in ys;
      var i :| 0 <= i < |ys| && ys[i] == xs[0];
      var front, back := ys[..i], ys[i + 1..];
      assert ys == front + [xs[0]] + back;
      RemoveFromBoth(xs, front, back);
      CitationsOfPermuted(xs[1..], front + back);
      CitationsOfPulledOut(front, xs[0], back);
      assert CitationsOf(xs) == xs[0].citations + CitationsOf(xs[1..]);
    }
  }

  /** An exhaustive request gets every citation exactly as often as it was supplied; any other gets a part of them. */
  lemma {:induction false} SelectionConservesCitations(
      question: string, exhaustive: bool, citations: seq<Citation>, classify: Classifier)
    ensures var selected := CitationsOf(Select(question, exhaustive, GroupByIssue(citations, classify)));
            && multiset(selected) <= multiset(citations)
            && (exhaustive ==> multiset(selected) == multiset(citations))
  {
    hide Select, GroupByIssue;
    var groups := GroupByIssue(citations, classify);
    var selected := Select(question, exhaustive, groups);
    var rest := SelectionIsTopRanked(question, exhaustive, groups);
    GroupsConserveCitations(citations, classify);
    CitationsOfPermuted(selected + rest, groups);
    CitationsOfConcat(selected, rest);
    if exhaustive {
      assert selected + rest == selected;
    }
  }

  // ----- the issue skeleton of the prompt -----

  /** `indexByCitation.get(c)`: the 1-based position of a citation, the last one if it were listed twice. */
  function IndexByCitation(citations: seq<Citation>, c: Citation): Option<nat> {
    if citations == [] then None
    else if citations[|citations| - 1] == c then Some(|citations|)
    else IndexByCitation(citations[..|citations| - 1], c)
  }

  /** The indexes whose markers an issue block lists. */
  function BlockIndexes(citations: seq<Citation>, group: seq<Citation>): seq<nat> {
    if group == [] then []
    else (if IndexByCitation(citations, group[0]).Some? then [IndexByCitation(citations, group[0]).value] else [])
         + BlockIndexes(citations, group[1..])
  }

  function SkeletonIndexes(citations: seq<Citation>, groups: seq<IssueGroup>): seq<nat> {
    if groups == [] then [] else BlockIndexes(citations, groups[0].citations) + SkeletonIndexes(citations, groups[1..])
  }

  ghost predicate IsDistinct(cs: seq<Citation>) {
    forall i, j :: 0 <= i < j < |cs| ==> cs[i] != cs[j]
  }

  lemma {:induction false} IndexIsLastPosition(citations: seq<Citation>, c: Citation)
    ensures IndexByCitation(citations, c).None? <==> c !in citations
    ensures forall n :: IndexByCitation(citations, c) == Some(n) ==> IsLastPosition(citations, c, n)
  {
    if citations != [] {
      var front := citations[..|citations| - 1];
      IndexIsLastPosition(front, c);
      assert citations == front + [citations[|citations| - 1]];
    }
  }

  /** Citation number `n` is `c`, and no later one is. */
  ghost predicate IsLastPosition(citations: seq<Citation>, c: Citation, n: nat) {
    && 1 <= n <= |citations| && citations[n - 1] == c
    && forall j :: n <= j < |citations| ==> citations[j] != c
  }

  /** `indexes` number the citations of `listed`, in order, by their last position among the supplied ones. */
  ghost predicate AreNumbersOf(indexes: seq<nat>, citations: seq<Citation>, listed: seq<Citation>) {
    |indexes| == |listed| && forall i :: 0 <= i < |listed| ==> IsLastPosition(citations, listed[i], indexes[i])
  }

  lemma {:induction false} BlockIndexesAreNumbers(citations: seq<Citation>, group: seq<Citation>)
    requires forall i :: 0 <= i < |group| ==> group[i] in citations
    ensures AreNumbersOf(BlockIndexes(citations, group), citations, group)
  {
    hide IndexByCitation, IsLastPosition;
    if group != [] {
      assert forall i :: 0 <= i < |group[1..]| ==> group[1..][i] == group[i + 1];
      BlockIndexesAreNumbers(citations, group[1..]);
      IndexIsLastPosition(citations, group[0]);
    }
  }

  /** Whatever the order of the supplied citations, every marker of the skeleton shows the number of its citation. */
  lemma {:induction false} SkeletonMarkersPointAtTheirCitations(citations: seq<Citation>, groups: seq<IssueGroup>)
    requires forall i :: 0 <= i < |CitationsOf(groups)| ==> CitationsOf(groups)[i] in citations
    ensures AreNumbersOf(SkeletonIndexes(citations, groups), citations, CitationsOf(groups))
  {
    hide BlockIndexes, AreNumbersOf;
    if groups != [] {
      var g, others := groups[0].citations, CitationsOf(groups[1..]);
      assert forall i :: 0 <= i < |g| ==> CitationsOf(groups)[i] == g[i];
      assert forall i :: 0 <= i < |others| ==> CitationsOf(groups)[|g| + i] == others[i];
      BlockIndexesAreNumbers(citations, g);
      SkeletonMarkersPointAtTheirCitations(citations, groups[1..]);
      NumbersOfConcat(BlockIndexes(citations, g), SkeletonIndexes(citations, groups[1..]), citations, g, others);
    } else {
      NoNumbers(citations);
    }
  }

  lemma {:induction false} NumbersOfConcat(
      xs: seq<nat>, ys: seq<nat>, citations: seq<Citation>, listed: seq<Citation>, others: seq<Citation>)
    requires AreNumbersOf(xs, citations, listed) && AreNumbersOf(ys, citations, others)
    ensures AreNumbersOf(xs + ys, citations, listed + others)
  {
    hide IsLastPosition;
  }

  lemma {:induction false} NoNumbers(citations: seq<Citation>)
    ensures AreNumbersOf([], citations, [])
  {
  }

  /** The numbers 1 to `n`. */
  function UpTo(n: nat): (r: seq<nat>)
    ensures |r| == n
    ensures forall k :: 0 <= k < n ==> r[k] == k + 1
  {
    seq(n, k requires 0 <= k < n => k + 1)
  }

  /**
    * When the prompt is built from the selected citations, the markers of its issue blocks, read in order, are 1 to n:
    * every citation shown to the model is assigned to one issue, and no issue names another number. It holds exactly
    * when no citation is listed twice.
    */
  lemma {:induction false} SkeletonNumbersEachCitationOnceExactly(groups: seq<IssueGroup>)
    ensures SkeletonIndexes(CitationsOf(groups), groups) == UpTo(|CitationsOf(groups)|) <==> IsDistinct(CitationsOf(groups))
  {
    hide SkeletonIndexes, CitationsOf, AreNumbersOf, IsDistinct;
    SkeletonMarkersPointAtTheirCitations(CitationsOf(groups), groups);
    if IsDistinct(CitationsOf(groups)) {
      DistinctAreCountedUp(SkeletonIndexes(CitationsOf(groups), groups), CitationsOf(groups));
    } else if SkeletonIndexes(CitationsOf(groups), groups) == UpTo(|CitationsOf(groups)|) {
      CountedUpAreDistinct(CitationsOf(groups));
    }
  }

  lemma {:induction false} DistinctAreCountedUp(indexes: seq<nat>, citations: seq<Citation>)
    requires AreNumbersOf(indexes, citations, citations) && IsDistinct(citations)
    ensures indexes == UpTo(|citations|)
  {
    forall i | 0 <= i < |citations|
      ensures indexes[i] == i + 1
    {
      assert IsLastPosition(citations, citations[i], indexes[i]);
    }
  }

  lemma {:induction false} CountedUpAreDistinct(citations: seq<Citation>)
    requires AreNumbersOf(UpTo(|citations|), citations, citations)
    ensures IsDistinct(citations)
  {
    forall i, j | 0 <= i < j < |citations|
      ensures citations[i] != citations[j]
    {
      assert IsLastPosition(citations, citations[i], i + 1);
    }
  }

  function Markers(indexes: seq<nat>): seq<string> {
    if indexes == [] then [] else [BuildCitationMarker(indexes[0])] + Markers(indexes[1..])
  }

  /** The line of one issue block: its lead text, then its markers separated by spaces. */
  function IssueBlockLine(lead: string, indexes: seq<nat>): string {
    lead + Join(Markers(indexes), " ")
  }

  lemma {:induction false} JoinedMarkers(indexes: seq<nat>)
    requires indexes != [] && AllIndexes(indexes)
    ensures FindMarkers(Join(Markers(indexes), " ")) == indexes
    ensures Join(Markers(indexes), " ") != "" && Join(Markers(indexes), " ")[0] == '['
  {
    hide FindMarkers, BuildCitationMarker, Straddling;
    var marker := BuildCitationMarker(indexes[0]);
    if |indexes| == 1 {
      OneMarker(indexes[0], "");
      assert Markers(indexes) == [marker] + Markers(indexes[1..]) && Markers(indexes[1..]) == [];
      assert indexes == [indexes[0]];
    } else {
      var rest := Join(Markers(indexes[1..]), " ");
      JoinedMarkers(indexes[1..]);
      assert |Markers(indexes)| > 1 && Markers(indexes)[1..] == Markers(indexes[1..]);
      assert Join(Markers(indexes), " ") == marker + (" " + rest);
      OneMarker(indexes[0], " " + rest);
      MarkersOfConcat(marker, " " + rest);
      MarkersOfConcat(" ", rest);
      NothingStraddles(" ", rest);
      SpaceHasNoMarkers();
    }
  }

  lemma {:induction false} SpaceHasNoMarkers()
    ensures FindMarkers(" ") == []
  {
    NothingOpens(" ", 0, 1);
    MarkersEnd(" ");
  }

  /**
    * An answer paragraph made of an issue block's text and its assigned markers is parsed back to exactly those indexes
    * and passes the grounding check for the citations the prompt was built from.
    */
  lemma {:induction false} SkeletonBlockIsGrounded(lead: string, group: seq<Citation>, citations: seq<Citation>)
    requires FindMarkers(lead) == [] && group != [] && forall i :: 0 <= i < |group| ==> group[i] in citations
    requires |citations| < ARRAY_LIMIT
    ensures var line := IssueBlockLine(lead, BlockIndexes(citations, group));
            && FindMarkers(line) == BlockIndexes(citations, group)
            && IsGrounded(ParsedAnswerBlock(Evidence, line), |citations|)
  {
    hide FindMarkers, Markers, Straddling, BlockIndexes;
    BlockIndexesAreNumbers(citations, group);
    var indexes := BlockIndexes(citations, group);
    assert forall i :: 0 <= i < |indexes| ==> IsLastPosition(citations, group[i], indexes[i]);
    JoinedMarkers(indexes);
    NothingStraddles(lead, Join(Markers(indexes), " "));
    MarkersOfConcat(lead, Join(Markers(indexes), " "));
  }
}
