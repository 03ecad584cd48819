/** The ECMAScript string operations that the modelled code relies on. */
module JsText {
  import opened Seqs

  // WhiteSpace and LineTerminator of ECMA-262: the set that `trim` and the regular expression class `\s` share.
  predicate IsSpace(c: char) {
    var u := c as int;
    || 0x9 <= u <= 0xD
    || u == 0x20 || u == 0xA0 || u == 0x1680
    || 0x2000 <= u <= 0x200A
    || u == 0x2028 || u == 0x2029 || u == 0x202F || u == 0x205F || u == 0x3000 || u == 0xFEFF
  }

  predicate IsDigit(c: char) {
    '0' <= c <= '9'
  }

  /** The end of the longest run of characters satisfying `p` that starts at `i`. */
  function RunEnd(s: string, i: nat, p: char -> bool): (j: nat)
    requires i <= |s|
    ensures i <= j <= |s|
    ensures forall k :: i <= k < j ==> p(s[k])
    ensures j < |s| ==> !p(s[j])
    decreases |s| - i
  {
    if i < |s| && p(s[i]) then RunEnd(s, i + 1, p) else i
  }

  lemma {:induction false} RunEndShift(x: string, y: string, i: nat, p: char -> bool)
    requires i <= |y|
    ensures RunEnd(x + y, |x| + i, p) == |x| + RunEnd(y, i, p)
  {
    var e := RunEnd(y, i, p);
    assert forall k :: i <= k <= e && k < |y| ==> (x + y)[|x| + k] == y[k];
    var f := RunEnd(x + y, |x| + i, p);
    assert forall k :: |x| + i <= k <= f && k < |x + y| ==> (x + y)[k] == y[k - |x|];
  }

  lemma {:induction false} RunEndOfConcat(x: string, y: string, i: nat, p: char -> bool)
    requires i <= |x|
    ensures RunEnd(x + y, i, p) == if RunEnd(x, i, p) < |x| then RunEnd(x, i, p) else |x| + RunEnd(y, 0, p)
  {
    var e := RunEnd(x, i, p);
    var f := RunEnd(x + y, i, p);
    assert forall k :: 0 <= k < |x| ==> (x + y)[k] == x[k];
    if e == |x| {
      assert f >= |x|;
      assert RunEnd(x + y, |x|, p) == f by { RunEndRestart(x + y, i, |x|, p); }
      RunEndShift(x, y, 0, p);
    }
  }

  lemma {:induction false} RunEndRestart(s: string, i: nat, j: nat, p: char -> bool)
    requires i <= j <= |s| && forall k :: i <= k < j ==> p(s[k])
    ensures RunEnd(s, j, p) == RunEnd(s, i, p)
  {
  }

  lemma {:induction false} RunEndIs(s: string, i: nat, j: nat, p: char -> bool)
    requires i <= j < |s| && !p(s[j]) && forall k :: i <= k < j ==> p(s[k])
    ensures RunEnd(s, i, p) == j
  {
  }

  /** The start of the longest run of characters satisfying `p` that ends before `j`. */
  function RunStart(s: string, j: nat, p: char -> bool): (i: nat)
    requires j <= |s|
    ensures i <= j
    ensures forall k :: i <= k < j ==> p(s[k])
    ensures i > 0 ==> !p(s[i - 1])
  {
    if j > 0 && p(s[j - 1]) then RunStart(s, j - 1, p) else j
  }

  ghost predicate Blank(s: string, lo: nat, hi: nat)
    requires hi <= |s|
  {
    forall k :: lo <= k < hi ==> IsSpace(s[k])
  }

  function TrimStart(s: string): string {
    s[RunEnd(s, 0, IsSpace)..]
  }

  function Trim(s: string): (r: string)
    ensures |r| <= |s|
    ensures r == "" <==> Blank(s, 0, |s|)
    ensures r != "" ==> !IsSpace(r[0]) && !IsSpace(r[|r| - 1])
    ensures r != "" ==> var a := RunEnd(s, 0, IsSpace); a + |r| <= |s| && r == s[a..a + |r|] && Blank(s, a + |r|, |s|)
  {
    var a := RunEnd(s, 0, IsSpace);
    var b := RunStart(s, |s|, IsSpace);
    if a < b then s[a..b] else ""
  }

  lemma {:induction false} TrimFixesTrimmed(s: string)
    requires s == "" || (!IsSpace(s[0]) && !IsSpace(s[|s| - 1]))
    ensures Trim(s) == s
  {
  }

  /** Whitespace added at the end is trimmed away again. */
  lemma {:induction false} TrimDropsSpace(s: string, c: char)
    requires IsSpace(c)
    ensures Trim(s + [c]) == Trim(s)
  {
    hide IsSpace, RunEnd, RunStart;
    var t := s + [c];
    RunEndOfConcat(s, [c], 0, IsSpace);
    RunStartOfConcat(s, c, IsSpace);
    var a, b := RunEnd(s, 0, IsSpace), RunStart(s, |s|, IsSpace);
    if a < b {
      assert t[a..b] == s[a..b];
    }
  }

  lemma {:induction false} RunStartOfConcat(s: string, c: char, p: char -> bool)
    requires p(c)
    ensures RunStart(s + [c], |s| + 1, p) == RunStart(s, |s|, p)
  {
    var t := s + [c];
    assert t[|s|] == c && forall k :: 0 <= k < |s| ==> t[k] == s[k];
    assert RunStart(t, |s| + 1, p) == RunStart(t, |s|, p);
  }

  lemma {:induction false} TrimDropsLeadingSpace(c: char, s: string)
    requires IsSpace(c)
    ensures Trim([c] + s) == Trim(s)
  {
    hide IsSpace, RunEnd, RunStart, Blank;
    var t := [c] + s;
    var a, b := RunEnd(s, 0, IsSpace), RunStart(s, |s|, IsSpace);
    assert RunEnd(t, 0, IsSpace) == a + 1 by {
      RunEndShift([c], s, 0, IsSpace);
      RunEndRestart(t, 0, 1, IsSpace);
    }
    RunStartShift(c, s, |s|, IsSpace);
    SliceBehind(c, s, a, b);
  }

  lemma {:induction false} SliceBehind(c: char, s: string, a: nat, b: nat)
    requires b <= |s|
    ensures a < b ==> ([c] + s)[a + 1..b + 1] == s[a..b]
  {
  }

  lemma {:induction false} RunStartShift(c: char, s: string, j: nat, p: char -> bool)
    requires j <= |s|
    ensures var b := RunStart(s, j, p); RunStart([c] + s, j + 1, p) == if b == 0 && p(c) then 0 else b + 1
  {
    if j > 0 && p(s[j - 1]) {
      RunStartShift(c, s, j - 1, p);
    }
  }

  /** Whitespace on either side does not matter to what is left after trimming. */
  lemma {:induction false} TrimOfPadded(before: string, s: string, behind: string)
    requires Blank(before, 0, |before|) && Blank(behind, 0, |behind|)
    ensures Trim(before + s + behind) == Trim(s)
    decreases |before| + |behind|
  {
    hide IsSpace, Trim;
    if behind != "" {
      var n := |behind| - 1;
      assert before + s + behind == (before + s + behind[..n]) + [behind[n]];
      TrimDropsSpace(before + s + behind[..n], behind[n]);
      TrimOfPadded(before, s, behind[..n]);
    } else if before != "" {
      assert before + s + behind == [before[0]] + (before[1..] + s + behind);
      TrimDropsLeadingSpace(before[0], before[1..] + s + behind);
      TrimOfPadded(before[1..], s, behind);
    } else {
      assert before + s + behind == s;
    }
  }

  /** What is left of one part: its trimmed text, unless that is empty. */
  function Kept(part: string): seq<string> {
    if Trim(part) == "" then [] else [Trim(part)]
  }

  /** `parts.map((part) => part.trim()).filter((part) => part.length > 0)`. */
  function TrimmedNonEmpty(parts: seq<string>): seq<string> {
    if parts == [] then [] else Kept(parts[0]) + TrimmedNonEmpty(parts[1..])
  }

  lemma {:induction false} TrimmedNonEmptyCons(part: string, parts: seq<string>)
    ensures TrimmedNonEmpty([part] + parts) == Kept(part) + TrimmedNonEmpty(parts)
  {
    hide Kept;
    assert ([part] + parts)[1..] == parts;
  }

  /** `s.indexOf(c, from)`: the first position of `c` at or after `from`, or -1. */
  function IndexOf(s: string, c: char, from: nat): (r: int)
    requires from <= |s|
    ensures r == -1 ==> forall k :: from <= k < |s| ==> s[k] != c
    ensures r != -1 ==> from <= r < |s| && s[r] == c && forall k :: from <= k < r ==> s[k] != c
  {
    var j := RunEnd(s, from, x => x != c);
    if j == |s| then -1 else j
  }

  /** `s.split(c)`. */
  function SplitOn(s: string, c: char): seq<string>
    decreases |s|
  {
    var at := IndexOf(s, c, 0);
    if at == -1 then [s] else [s[..at]] + SplitOn(s[at + 1..], c)
  }

  lemma {:induction false} SplitOnConcat(s: string, u: string, c: char)
    ensures SplitOn(s + [c] + u, c) == SplitOn(s, c) + SplitOn(u, c)
    decreases |s|
  {
    hide IndexOf, SplitOn;
    var t := s + [c] + u;
    var at := IndexOf(s, c, 0);
    assert forall k :: 0 <= k < |s| ==> t[k] == s[k];
    if at == -1 {
      SplitOnFirst(t, c, |s|);
      assert t[..|s|] == s && t[|s| + 1..] == u;
      SplitOnAbsent(s, c);
    } else {
      SplitOnFirst(t, c, at);
      SplitOnFirst(s, c, at);
      var rest := s[at + 1..];
      assert t[..at] == s[..at] && t[at + 1..] == rest + [c] + u;
      SplitOnConcat(rest, u, c);
      assert [s[..at]] + (SplitOn(rest, c) + SplitOn(u, c)) == ([s[..at]] + SplitOn(rest, c)) + SplitOn(u, c);
    }
  }

  lemma {:induction false} SplitOnFirst(s: string, c: char, at: nat)
    requires at < |s| && s[at] == c && forall k :: 0 <= k < at ==> s[k] != c
    ensures SplitOn(s, c) == [s[..at]] + SplitOn(s[at + 1..], c)
  {
    hide RunEnd;
    assert IndexOf(s, c, 0) == at;
  }

  lemma {:induction false} SplitOnAbsent(s: string, c: char)
    requires forall k :: 0 <= k < |s| ==> s[k] != c
    ensures SplitOn(s, c) == [s]
  {
  }

  /** `parts.join(separator)`. */
  function Join(parts: seq<string>, separator: string): string {
    if |parts| == 0 then ""
    else if |parts| == 1 then parts[0]
    else parts[0] + separator + Join(parts[1..], separator)
  }

  function DigitChar(d: nat): (c: char)
    requires d < 10
    ensures IsDigit(c) && DigitValue(c) == d
  {
    '0' + d as char
  }

  function DigitValue(c: char): (d: nat)
    requires IsDigit(c)
    ensures d < 10
  {
    (c - '0') as nat
  }

  predicate AllDigits(s: string) {
    forall k :: 0 <= k < |s| ==> IsDigit(s[k])
  }

  lemma {:induction false} DigitIsNoSpace(digits: string)
    requires AllDigits(digits)
    ensures forall k :: 0 <= k < |digits| ==> !IsSpace(digits[k])
  {
  }

  lemma {:induction false} SpaceIsNoDigit(space: string)
    requires Blank(space, 0, |space|)
    ensures forall k :: 0 <= k < |space| ==> !IsDigit(space[k])
  {
  }

  /** `String(n)` for a natural number. */
  function Decimal(n: nat): (s: string)
    ensures |s| > 0 && AllDigits(s)
  {
    if n < 10 then [DigitChar(n)] else Decimal(n / 10) + [DigitChar(n % 10)]
  }

  /** No zeros are put in front. */
  lemma {:induction false} DecimalIsCanonical(n: nat)
    ensures n > 0 ==> Decimal(n)[0] != '0'
    ensures n < 10 <==> |Decimal(n)| == 1
  {
    if n >= 10 {
      DecimalIsCanonical(n / 10);
    }
  }

  /** `Number(s)` for a string of decimal digits. */
  function NumberOf(s: string): nat
    requires AllDigits(s)
  {
    if s == "" then 0 else NumberOf(s[..|s| - 1]) * 10 + DigitValue(s[|s| - 1])
  }

  lemma {:induction false} NumberOfDecimal(n: nat)
    ensures NumberOf(Decimal(n)) == n
  {
    if n >= 10 {
      NumberOfDecimal(n / 10);
      assert Decimal(n)[..|Decimal(n)| - 1] == Decimal(n / 10);
    } else {
      assert Decimal(n)[..0] == "";
    }
  }

  // ----- the integers a number can be -----

  /** Below two to the power of 53 a number holds every integer. */
  const EXACT_INTEGERS := 0x20_0000_0000_0000
  /** A finite number is a multiple of a power of two, up to this one, by an integer below `EXACT_INTEGERS`. */
  const MAX_EXPONENT := 971

  /** An array has fewer than two to the power of 32 elements. */
  const ARRAY_LIMIT := 0x1_0000_0000
  type ArrayLength = n: nat | n < 0x1_0000_0000

  /** The numbers around an integer are the multiples of `unit`, which is two to the power of `exponent`. */
  datatype Scale = Scale(exponent: nat, unit: nat)

  /** The finest scale, from `unit` on, on which `n` takes no more than 53 bits. */
  function ScaleOf(n: nat, exponent: nat, unit: nat): (s: Scale)
    requires unit > 0
    ensures s.unit >= unit && n < EXACT_INTEGERS * s.unit
    ensures s.unit == unit || EXACT_INTEGERS * s.unit <= 2 * n
    decreases n - unit
  {
    if n < EXACT_INTEGERS * unit then Scale(exponent, unit) else ScaleOf(n, exponent + 1, 2 * unit)
  }

  /** The multiple of `unit` nearest to `n`, the even one if there are two. */
  function Rounded(n: nat, unit: nat): nat
    requires unit > 0
  {
    var q, r := n / unit, n % unit;
    if 2 * r < unit || (2 * r == unit && q % 2 == 0) then q * unit else (q + 1) * unit
  }

  /** `Number(s)` as an integer, for a string of decimal digits that denotes `n`: rounded to 53 bits, or infinite. */
  function NumberFrom(n: nat): Option<nat> {
    var s := ScaleOf(n, 0, 1);
    var d := Rounded(n, s.unit);
    if s.exponent < MAX_EXPONENT || (s.exponent == MAX_EXPONENT && d < EXACT_INTEGERS * s.unit) then Some(d) else None
  }

  /** Rounding takes a nearest multiple of the unit, and of two equally near ones the even one. */
  lemma {:induction false} RoundedIsNearest(n: nat, unit: nat, m: nat)
    requires unit > 0
    ensures Rounded(n, unit) % unit == 0
    ensures var d := Rounded(n, unit); Gap(n, d) <= Gap(n, m * unit)
    ensures var d := Rounded(n, unit); 2 * Gap(n, d) == unit ==> (d / unit) % 2 == 0
  {
    var q, r := n / unit, n % unit;
    assert n == q * unit + r;
    MultipleOf(q, unit);
    MultipleOf(q + 1, unit);
    assert (q + 1) * unit == q * unit + unit;
    if m <= q {
      ProductAtMost(m, q, unit);
    } else {
      ProductAtMost(q + 1, m, unit);
    }
  }

  function Gap(a: nat, b: nat): nat {
    if a <= b then b - a else a - b
  }

  lemma {:induction false} MultipleOf(q: nat, unit: nat)
    requires unit > 0
    ensures (q * unit) % unit == 0 && q * unit / unit == q
  {
    UniqueQuotient(q * unit, unit, q);
  }

  lemma {:induction false} UniqueQuotient(n: nat, unit: nat, q: nat)
    requires unit > 0 && n == q * unit
    ensures n / unit == q && n % unit == 0
  {
    var p, r := n / unit, n % unit;
    assert n == p * unit + r;
    assert (p + 1) * unit == p * unit + unit && (q + 1) * unit == q * unit + unit;
    if p < q {
      ProductAtMost(p + 1, q, unit);
    } else if q < p {
      ProductAtMost(q + 1, p, unit);
    }
  }

  lemma {:induction false} SmallIntegersAreExact(n: nat)
    requires n < EXACT_INTEGERS
    ensures NumberFrom(n) == Some(n)
  {
    assert ScaleOf(n, 0, 1) == Scale(0, 1);
    assert n / 1 == n && n % 1 == 0;
  }

  /** Rounding does not bring a large integer among the exact ones. */
  lemma {:induction false} LargeIntegersStayLarge(n: nat)
    requires n >= EXACT_INTEGERS && NumberFrom(n).Some?
    ensures NumberFrom(n).value >= EXACT_INTEGERS
  {
    var u := ScaleOf(n, 0, 1).unit;
    var q := n / u;
    assert u >= 2;
    assert 2 * n >= EXACT_INTEGERS * u;
    QuotientAtLeast(n, u, EXACT_INTEGERS / 2);
    MultipleAtLeast(q, u);
  }

  lemma {:induction false} QuotientAtLeast(n: nat, u: nat, h: nat)
    requires u > 0 && n >= h * u
    ensures n / u >= h
  {
    var q := n / u;
    assert n < (q + 1) * u;
    if q < h {
      ProductAtMost(q + 1, h, u);
    }
  }

  lemma {:induction false} ProductAtMost(a: nat, b: nat, u: nat)
    requires a <= b
    ensures a * u <= b * u
  {
  }

  lemma {:induction false} MultipleAtLeast(q: nat, u: nat)
    requires q >= EXACT_INTEGERS / 2 && u >= 2
    ensures q * u >= EXACT_INTEGERS && (q + 1) * u >= EXACT_INTEGERS
  {
    assert q * u >= q * 2;
  }
}
