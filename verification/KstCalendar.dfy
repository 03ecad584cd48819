/**
  * KST calendar arithmetic over time values in milliseconds (src/domain/analytics/date-buckets.ts,
  * src/domain/contracts/get-computed-contract-status.ts). The civil calendar is the one of ECMA-262,
  * section 21.4.1; months are counted from year 0, so that month `m` of year `y` is `12 * y + m`.
  */
module KstCalendar {
  import opened JsText
  import opened Seqs

  const MS_PER_DAY := 24 * 60 * 60 * 1000
  const KST_OFFSET_MS := 9 * 60 * 60 * 1000

  // ----- the civil calendar -----

  predicate IsLeap(y: int) {
    y % 4 == 0 && (y % 100 != 0 || y % 400 == 0)
  }

  function DayFromYear(y: int): int {
    365 * (y - 1970) + (y - 1969) / 4 - (y - 1901) / 100 + (y - 1601) / 400
  }

  /** Days from 1 January to the first of month `m` in a common year. */
  function DaysBefore(m: int): int
    requires 0 <= m < 12
  {
    [0, 31, 59, 90, 120, 151, 181, 212, 243, 273, 304, 334][m]
  }

  /** The day number, counted from 1 January 1970, of the first day of a month. */
  function StartOfMonth(month: int): int {
    var y, m := month / 12, month % 12;
    DayFromYear(y) + DaysBefore(m) + (if m > 1 && IsLeap(y) then 1 else 0)
  }

  function DaysIn(month: int): int {
    StartOfMonth(month + 1) - StartOfMonth(month)
  }

  lemma {:induction false} LeapDayEvery4(y: int)
    ensures (y - 1968) / 4 - (y - 1969) / 4 == if y % 4 == 0 then 1 else 0
  {
  }

  lemma {:induction false} NoLeapDayEvery100(y: int)
    ensures (y - 1900) / 100 - (y - 1901) / 100 == if y % 100 == 0 then 1 else 0
  {
  }

  lemma {:induction false} LeapDayEvery400(y: int)
    ensures (y - 1600) / 400 - (y - 1601) / 400 == if y % 400 == 0 then 1 else 0
  {
  }

  lemma {:induction false} HundredsAreFours(y: int)
    ensures y % 400 == 0 ==> y % 100 == 0
    ensures y % 100 == 0 ==> y % 4 == 0
  {
  }

  lemma {:induction false} YearLength(y: int)
    ensures DayFromYear(y + 1) - DayFromYear(y) == if IsLeap(y) then 366 else 365
  {
    LeapDayEvery4(y);
    NoLeapDayEvery100(y);
    LeapDayEvery400(y);
    HundredsAreFours(y);
  }

  /** Thirty days hath September; the calendar starts on 1 January 1970. */
  lemma {:induction false} CalendarIsGregorian(month: int)
    ensures var m := month % 12 + 1;
            DaysIn(month) == if m == 2 then (if IsLeap(month / 12) then 29 else 28) else if m in {4, 6, 9, 11} then 30 else 31
    ensures StartOfMonth(12 * 1970) == 0
  {
    var y, m := month / 12, month % 12;
    assert DayFromYear(1970) == 0;
    NextMonthFields(month);
    YearLength(y);
  }

  lemma {:induction false} NextMonthFields(month: int)
    ensures (month + 1) / 12 == if month % 12 == 11 then month / 12 + 1 else month / 12
    ensures (month + 1) % 12 == if month % 12 == 11 then 0 else month % 12 + 1
  {
  }

  lemma {:induction false} MonthLength(month: int)
    ensures 28 <= DaysIn(month) <= 31
  {
    hide DaysIn, StartOfMonth, IsLeap;
    CalendarIsGregorian(month);
  }

  lemma {:induction false} MonthsIncrease(a: int, b: int)
    requires a <= b
    ensures StartOfMonth(b) - StartOfMonth(a) >= 28 * (b - a)
    decreases b - a
  {
    hide StartOfMonth;
    if a < b {
      MonthsIncrease(a, b - 1);
      MonthLength(b - 1);
      assert DaysIn(b - 1) == StartOfMonth(b) - StartOfMonth(b - 1);
    }
  }

  ghost function Distance(day: int, month: int): nat {
    if StartOfMonth(month) > day then StartOfMonth(month) - day
    else if StartOfMonth(month + 1) <= day then day - StartOfMonth(month + 1) + 1
    else 0
  }

  function FindMonth(day: int, month: int): (r: int)
    ensures StartOfMonth(r) <= day < StartOfMonth(r + 1)
    decreases Distance(day, month)
  {
    hide StartOfMonth;
    MonthLength(month - 1);
    MonthLength(month);
    MonthLength(month + 1);
    if StartOfMonth(month) > day then FindMonth(day, month - 1)
    else if StartOfMonth(month + 1) <= day then FindMonth(day, month + 1)
    else month
  }

  /** The month a day lies in. */
  function MonthOfDay(day: int): (r: int)
    ensures StartOfMonth(r) <= day < StartOfMonth(r + 1)
  {
    hide StartOfMonth;
    FindMonth(day, 1970 * 12)
  }

  lemma {:induction false} MonthOfDayIs(day: int, month: int)
    requires StartOfMonth(month) <= day < StartOfMonth(month + 1)
    ensures MonthOfDay(day) == month
  {
    hide StartOfMonth, MonthOfDay;
    var r := MonthOfDay(day);
    if r < month {
      MonthsIncrease(r + 1, month);
    } else if month < r {
      MonthsIncrease(month + 1, r);
    }
  }

  // ----- instants -----

  function DayOf(t: int): int {
    t / MS_PER_DAY
  }

  /** The UTC month of an instant: `getUTCFullYear() * 12 + getUTCMonth()`. */
  function UtcMonth(t: int): int {
    MonthOfDay(DayOf(t))
  }

  /** The month of an instant as observed in KST. */
  function KstMonth(t: int): int {
    UtcMonth(t + KST_OFFSET_MS)
  }

  /** The instant at which a KST calendar month begins. */
  function KstMonthStart(month: int): int {
    StartOfMonth(month) * MS_PER_DAY - KST_OFFSET_MS
  }

  /** Korea is nine hours ahead: its months begin at 15:00 UTC. */
  lemma {:induction false} KstMonthsBeginAtKstMidnight(month: int)
    ensures KstMonthStart(month) % 86_400_000 == 54_000_000
    ensures KstMonthStart(12 * 1970) == -32_400_000
  {
    hide StartOfMonth;
    CalendarIsGregorian(month);
    DayRemainder(StartOfMonth(month));
  }

  lemma {:induction false} DayRemainder(day: int)
    ensures (day * MS_PER_DAY - KST_OFFSET_MS) % MS_PER_DAY == MS_PER_DAY - KST_OFFSET_MS
  {
    assert day * MS_PER_DAY - KST_OFFSET_MS == (day - 1) * MS_PER_DAY + (MS_PER_DAY - KST_OFFSET_MS);
  }

  lemma {:induction false} KstMonthIs(t: int, month: int)
    ensures KstMonth(t) == month <==> KstMonthStart(month) <= t < KstMonthStart(month + 1)
  {
    hide StartOfMonth, MonthOfDay;
    var day := DayOf(t + KST_OFFSET_MS);
    if StartOfMonth(month) <= day < StartOfMonth(month + 1) {
      MonthOfDayIs(day, month);
    }
    assert StartOfMonth(KstMonth(t)) <= day < StartOfMonth(KstMonth(t) + 1);
  }

  // ----- month keys -----

  function PadTwo(n: nat): string {
    if |Decimal(n)| >= 2 then Decimal(n) else "0" + Decimal(n)
  }

  function YearText(year: int): string {
    if year < 0 then "-" + Decimal(-year) else Decimal(year)
  }

  /** The key "YYYY-MM" of a month. */
  function KeyOf(month: int): string {
    YearText(month / 12) + "-" + PadTwo(month % 12 + 1)
  }

  function MonthKeyKst(t: int): string {
    KeyOf(KstMonth(t))
  }

  /** `Date.UTC(year, month, 1)`: years 0 to 99 mean 1900 to 1999. */
  function DateUtc(year: int, month: int): int {
    var y := if 0 <= year <= 99 then 1900 + year else year;
    StartOfMonth(y * 12 + month) * MS_PER_DAY
  }

  /**
    * `monthRangeUtcBounds`: the first two pieces of the key as year and month. A key whose pieces are missing or are no
    * numerals has no bounds here; the code only ever passes keys made by `KeyOf`.
    */
  function MonthRangeUtcBounds(key: string): Option<(int, int)> {
    var pieces := SplitOn(key, '-');
    if |pieces| < 2 || !AllDigits(pieces[0]) || !AllDigits(pieces[1]) then None
    else
      var year, month := NumberOf(pieces[0]), NumberOf(pieces[1]);
      Some((DateUtc(year, month - 1) - KST_OFFSET_MS, DateUtc(year, month) - KST_OFFSET_MS))
  }

  ghost predicate InRange(key: string, t: int) {
    MonthRangeUtcBounds(key).Some? && MonthRangeUtcBounds(key).value.0 <= t < MonthRangeUtcBounds(key).value.1
  }

  lemma {:induction false} TwoDigitMonth(n: nat)
    requires 1 <= n <= 12
    ensures AllDigits(PadTwo(n)) && NumberOf(PadTwo(n)) == n
  {
    NumberOfDecimal(n);
    if n < 10 {
      var s := "0" + Decimal(n);
      assert s[..1] == "0" && "0"[..0] == "";
      assert NumberOf("0") == 0;
    }
  }

  lemma {:induction false} NumeralHasNoDash(s: string)
    requires AllDigits(s)
    ensures forall k :: 0 <= k < |s| ==> s[k] != '-'
  {
  }

  lemma {:induction false} KeyPieces(month: int)
    ensures SplitOn(KeyOf(month), '-') ==
            (if month / 12 < 0 then [""] else [])
            + [Decimal(if month / 12 < 0 then -(month / 12) else month / 12), PadTwo(month % 12 + 1)]
  {
    hide Decimal, NumberOf, SplitOn, PadTwo;
    var year := month / 12;
    var y := Decimal(if year < 0 then -year else year);
    var m := PadTwo(month % 12 + 1);
    TwoDigitMonth(month % 12 + 1);
    NumeralHasNoDash(y);
    NumeralHasNoDash(m);
    SplitOnAbsent(y, '-');
    SplitOnAbsent(m, '-');
    SplitOnConcat(y, m, '-');
    if year < 0 {
      SplitOnAbsent("", '-');
      SplitOnConcat("", y + "-" + m, '-');
      assert KeyOf(month) == "" + "-" + (y + "-" + m);
    }
  }

  /** Different months have different keys. */
  lemma {:induction false} KeysAreDistinct(a: int, b: int)
    requires KeyOf(a) == KeyOf(b)
    ensures a == b
  {
    hide Decimal, NumberOf, SplitOn, PadTwo, KeyOf;
    KeyPieces(a);
    KeyPieces(b);
    var p, q := SplitOn(KeyOf(a), '-'), SplitOn(KeyOf(b), '-');
    assert |p| == |q| && p[|p| - 1] == q[|q| - 1] && p[|p| - 2] == q[|q| - 2];
    TwoDigitMonth(a % 12 + 1);
    TwoDigitMonth(b % 12 + 1);
    NumberOfDecimal(if a / 12 < 0 then -(a / 12) else a / 12);
    NumberOfDecimal(if b / 12 < 0 then -(b / 12) else b / 12);
  }

  /** The bounds read back from a month's key: the real ones from year 100 on, those of another century before. */
  lemma {:induction false} BoundsOfKey(month: int)
    ensures MonthRangeUtcBounds(KeyOf(month)) ==
            if month >= 1200 then Some((KstMonthStart(month), KstMonthStart(month + 1)))
            else if month >= 0 then Some((KstMonthStart(month + 22800), KstMonthStart(month + 22801)))
            else var m := 22800 - month / 12; Some((KstMonthStart(m - 1), KstMonthStart(m)))
  {
    hide Decimal, NumberOf, SplitOn, PadTwo, KeyOf, StartOfMonth;
    KeyPieces(month);
    TwoDigitMonth(month % 12 + 1);
    var year := month / 12;
    NumberOfDecimal(if year < 0 then -year else year);
    EmptyNumeral();
  }

  lemma {:induction false} EmptyNumeral()
    ensures AllDigits("") && NumberOf("") == 0
  {
  }

  /** Two texts differ first at position `k`, where `s` has the smaller character. */
  ghost predicate ComesBeforeAt(s: string, t: string, k: nat) {
    k < |s| && k < |t| && s[..k] == t[..k] && s[k] < t[k]
  }

  ghost predicate ComesBefore(s: string, t: string) {
    exists k: nat :: ComesBeforeAt(s, t, k)
  }

  lemma {:induction false} FourDigits(n: nat)
    requires 1000 <= n < 10000
    ensures |Decimal(n)| == 4
  {
    assert |Decimal(n / 1000)| == 1;
    assert n / 100 / 10 == n / 1000 && |Decimal(n / 100)| == 2;
    assert n / 10 / 10 == n / 100 && |Decimal(n / 10)| == 3;
  }

  lemma {:induction false} MonthHasTwoDigits(n: nat)
    requires 1 <= n <= 12
    ensures |PadTwo(n)| == 2
  {
    if n >= 10 {
      assert |Decimal(n / 10)| == 1;
    }
  }

  /** The key of a month in a four-digit year is four digits, a dash and two digits, and they say year and month. */
  lemma {:induction false} KeyShape(month: int)
    requires 1000 <= month / 12 < 10000
    ensures var key := KeyOf(month);
            && |key| == 7 && AllDigits(key[..4]) && key[4] == '-' && AllDigits(key[5..])
            && NumberOf(key[..4]) == month / 12 && NumberOf(key[5..]) == month % 12 + 1
  {
    hide Decimal, NumberOf, PadTwo;
    var key, year := KeyOf(month), Decimal(month / 12);
    FourDigits(month / 12);
    MonthHasTwoDigits(month % 12 + 1);
    TwoDigitMonth(month % 12 + 1);
    NumberOfDecimal(month / 12);
    assert key == year + "-" + PadTwo(month % 12 + 1);
    assert key[..4] == year && key[5..] == PadTwo(month % 12 + 1);
  }

  /** Numerals of equal length are in text order when they are in numerical order. */
  lemma {:induction false} NumeralOrder(s: string, t: string)
    requires |s| == |t| && AllDigits(s) && AllDigits(t)
    ensures NumberOf(s) < NumberOf(t) ==> ComesBefore(s, t)
    ensures NumberOf(s) == NumberOf(t) ==> s == t
  {
    if s != "" {
      var last := |s| - 1;
      var a, b := s[..last], t[..last];
      NumeralOrder(a, b);
      assert s == a + [s[last]] && t == b + [t[last]];
      if NumberOf(a) < NumberOf(b) {
        var k: nat :| ComesBeforeAt(a, b, k);
        assert s[..k] == a[..k] && t[..k] == b[..k];
        assert ComesBeforeAt(s, t, k);
      } else if NumberOf(a) == NumberOf(b) && s[last] < t[last] {
        assert ComesBeforeAt(s, t, last);
      }
    }
  }

  lemma {:induction false} EarlierKeyComesBefore(a: int, b: int)
    requires 1000 <= a / 12 < 10000 && 1000 <= b / 12 < 10000 && a < b
    ensures ComesBefore(KeyOf(a), KeyOf(b))
  {
    hide KeyOf, NumberOf, AllDigits;
    var x, y := KeyOf(a), KeyOf(b);
    KeyShape(a);
    KeyShape(b);
    if a / 12 < b / 12 {
      NumeralOrder(x[..4], y[..4]);
      var k: nat :| ComesBeforeAt(x[..4], y[..4], k);
      assert x[..k] == x[..4][..k] == y[..4][..k] == y[..k];
      assert ComesBeforeAt(x, y, k);
    } else {
      NumeralOrder(x[..4], y[..4]);
      NumeralOrder(x[5..], y[5..]);
      var k: nat :| ComesBeforeAt(x[5..], y[5..], k);
      assert x[..5 + k] == x[..4] + ['-'] + x[5..][..k];
      assert y[..5 + k] == y[..4] + ['-'] + y[5..][..k];
      assert ComesBeforeAt(x, y, 5 + k);
    }
  }

  lemma {:induction false} SameUpTo(s: string, t: string, k: nat)
    requires ComesBeforeAt(s, t, k)
    ensures forall i :: 0 <= i < k ==> s[i] == t[i]
  {
    assert forall i :: 0 <= i < k ==> s[i] == s[..k][i] && t[i] == t[..k][i];
  }

  lemma {:induction false} TextOrderIsStrict(s: string, t: string)
    requires ComesBefore(s, t)
    ensures s != t && !ComesBefore(t, s)
  {
    var k: nat :| ComesBeforeAt(s, t, k);
    SameUpTo(s, t, k);
    if j: nat :| ComesBeforeAt(t, s, j) {
      SameUpTo(t, s, j);
    }
  }

  /** For four-digit years the keys sort as texts as their months do in time. */
  lemma {:induction false} KeysSortByTime(a: int, b: int)
    requires 1000 <= a / 12 < 10000 && 1000 <= b / 12 < 10000
    ensures ComesBefore(KeyOf(a), KeyOf(b)) <==> a < b
  {
    hide KeyOf, ComesBefore;
    if a < b {
      EarlierKeyComesBefore(a, b);
    } else if b < a {
      EarlierKeyComesBefore(b, a);
      TextOrderIsStrict(KeyOf(b), KeyOf(a));
    } else if ComesBefore(KeyOf(a), KeyOf(b)) {
      TextOrderIsStrict(KeyOf(a), KeyOf(b));
    }
  }

  const YEAR_100 := 1200

  /**
    * Exactly when an instant lies in the range of its own month key: from year 100 on. Before, `Date.UTC` reads the
    * year as one of the twentieth century, and a negative year is split at its own minus sign.
    */
  lemma {:induction false} InstantInRangeOfItsKey(t: int)
    ensures InRange(MonthKeyKst(t), t) <==> KstMonth(t) >= YEAR_100
  {
    hide KeyOf, MonthRangeUtcBounds, KstMonthStart, KstMonth;
    var month := KstMonth(t);
    BoundsOfKey(month);
    KstMonthIs(t, month);
    if month < YEAR_100 {
      var other := if month >= 0 then month + 22800 else 22800 - month / 12 - 1;
      KstMonthIs(t, other);
    }
  }

  /** Two instants share a month key exactly when the second lies in the range of the first one's key. */
  lemma {:induction false} KeysAndRangesAgree(t: int, u: int)
    requires KstMonth(t) >= YEAR_100
    ensures MonthKeyKst(u) == MonthKeyKst(t) <==> InRange(MonthKeyKst(t), u)
  {
    hide KeyOf, MonthRangeUtcBounds, KstMonthStart, KstMonth;
    BoundsOfKey(KstMonth(t));
    KstMonthIs(u, KstMonth(t));
    if MonthKeyKst(u) == MonthKeyKst(t) {
      KeysAreDistinct(KstMonth(u), KstMonth(t));
    }
  }

  // ----- the last n months -----

  /** The ECMAScript remainder: it takes the sign of the dividend. */
  function Remainder(a: int, b: int): int
    requires b > 0
  {
    if a >= 0 then a % b else -((-a) % b)
  }

  lemma {:induction false} KeyFromParts(month: int)
    ensures YearText(month / 12) + "-" + PadTwo((Remainder(month, 12) + 12) % 12 + 1) == KeyOf(month)
  {
    hide YearText, PadTwo, Remainder;
    RemainderMadePositive(month);
  }

  lemma {:induction false} RemainderMadePositive(month: int)
    ensures (Remainder(month, 12) + 12) % 12 == month % 12
  {
    if month < 0 {
      NegativeRemainder(-month);
    }
  }

  lemma {:induction false} NegativeRemainder(n: int)
    ensures (12 - n % 12) % 12 == (-n) % 12
  {
    var q, r := n / 12, n % 12;
    assert -n == 12 * (-q - 1) + (12 - r);
  }

  method LastNMonthsKst(count: int, now: int) returns (keys: seq<string>)
    ensures |keys| == if count > 0 then count else 0
    ensures forall i :: 0 <= i < |keys| ==> keys[i] == KeyOf(KstMonth(now) - (count - 1 - i))
  {
    hide KeyOf, KstMonth, YearText, PadTwo, Remainder;
    var total := KstMonth(now);
    var year, month := total / 12, total % 12;
    keys := [];
    var i := count - 1;
    while i >= 0
      invariant count > 0 ==> -1 <= i < count && |keys| == count - 1 - i
      invariant count <= 0 ==> keys == [] && i == count - 1
      invariant forall k :: 0 <= k < |keys| ==> keys[k] == KeyOf(total - (count - 1 - k))
    {
      var totalMonths := year * 12 + month - i;
      var bucketYear := totalMonths / 12;
      var bucketMonth := (Remainder(totalMonths, 12) + 12) % 12;
      KeyFromParts(totalMonths);
      keys := keys + [YearText(bucketYear) + "-" + PadTwo(bucketMonth + 1)];
      i := i - 1;
    }
  }

  /** The keys of `count` consecutive months up to `last`. */
  function ConsecutiveKeys(count: nat, last: int): (r: seq<string>)
    ensures |r| == count
  {
    seq(count, i requires 0 <= i < count => KeyOf(last - (count - 1 - i)))
  }

  /** Position `i` of the list is the only one whose range holds an instant of that month. */
  lemma {:induction false} RangeOfListedMonth(count: nat, last: int, i: nat, t: int)
    requires i < count && last - (count - 1) >= YEAR_100
    ensures MonthRangeUtcBounds(ConsecutiveKeys(count, last)[i])
            == Some((KstMonthStart(last - (count - 1 - i)), KstMonthStart(last - (count - 1 - i) + 1)))
    ensures InRange(ConsecutiveKeys(count, last)[i], t) <==> KstMonth(t) == last - (count - 1 - i)
  {
    hide KeyOf, MonthRangeUtcBounds, KstMonthStart, KstMonth;
    BoundsOfKey(last - (count - 1 - i));
    KstMonthIs(t, last - (count - 1 - i));
  }

  /** Each range ends where the next one begins, the keys differ, and the last range holds the present instant. */
  lemma {:induction false} LastMonthsAreConsecutive(count: nat, now: int, i: nat)
    requires 0 < i < count && KstMonth(now) - (count - 1) >= YEAR_100
    ensures var keys := ConsecutiveKeys(count, KstMonth(now));
            var earlier, later := MonthRangeUtcBounds(keys[i - 1]), MonthRangeUtcBounds(keys[i]);
            earlier.Some? && later.Some? && earlier.value.1 == later.value.0
            && keys[i - 1] != keys[i] && keys[count - 1] == MonthKeyKst(now) && InRange(keys[count - 1], now)
  {
    hide KeyOf, MonthRangeUtcBounds, KstMonthStart, KstMonth, InRange;
    var last := KstMonth(now);
    RangeOfListedMonth(count, last, i - 1, now);
    RangeOfListedMonth(count, last, i, now);
    RangeOfListedMonth(count, last, count - 1, now);
    if ConsecutiveKeys(count, last)[i - 1] == ConsecutiveKeys(count, last)[i] {
      KeysAreDistinct(last - (count - i), last - (count - 1 - i));
    }
  }

  /**
    * The ranges of the last `count` months tile one stretch of time: an instant lies in one of them exactly when it is
    * neither before the first nor after the last, and then in only one.
    */
  lemma {:induction false} LastMonthsTile(count: nat, now: int, t: int)
    requires count > 0 && KstMonth(now) - (count - 1) >= YEAR_100
    ensures var keys := ConsecutiveKeys(count, KstMonth(now));
            && ((exists i :: 0 <= i < count && InRange(keys[i], t))
                <==> KstMonthStart(KstMonth(now) - (count - 1)) <= t < KstMonthStart(KstMonth(now) + 1))
            && (forall i, j :: 0 <= i < j < count ==> !(InRange(keys[i], t) && InRange(keys[j], t)))
  {
    hide KeyOf, MonthRangeUtcBounds, KstMonthStart, KstMonth, InRange;
    var last := KstMonth(now);
    var keys := ConsecutiveKeys(count, last);
    forall i | 0 <= i < count
      ensures InRange(keys[i], t) <==> KstMonth(t) == last - (count - 1 - i)
    {
      RangeOfListedMonth(count, last, i, t);
    }
    InSpan(last - (count - 1), last, t);
    if last - (count - 1) <= KstMonth(t) <= last {
      assert InRange(keys[KstMonth(t) - (last - (count - 1))], t);
    }
  }

  lemma {:induction false} InSpan(first: int, last: int, t: int)
    requires first <= last
    ensures first <= KstMonth(t) <= last <==> KstMonthStart(first) <= t < KstMonthStart(last + 1)
  {
    hide StartOfMonth, KstMonth;
    var month := KstMonth(t);
    KstMonthIs(t, month);
    if month < first { MonthsIncrease(month + 1, first); } else { MonthsIncrease(first, month); }
    if month <= last { MonthsIncrease(month + 1, last + 1); } else { MonthsIncrease(last + 1, month); }
  }

  // ----- month subtraction -----

  function DayOfMonth(t: int): int {
    DayOf(t) - StartOfMonth(UtcMonth(t)) + 1
  }

  function TimeInDay(t: int): int {
    t % MS_PER_DAY
  }

  /** The time value of a day of a month; days past its end run into the following month, as in MakeDay. */
  function MakeTime(month: int, dayOfMonth: int, timeInDay: int): int {
    (StartOfMonth(month) + dayOfMonth - 1) * MS_PER_DAY + timeInDay
  }

  /** `setUTCMonth(getUTCMonth() - months)` on a copy of the date. */
  function SubtractMonthsUtc(t: int, months: int): int {
    MakeTime(UtcMonth(t) - months, DayOfMonth(t), TimeInDay(t))
  }

  lemma {:induction false} MakeTimeFields(month: int, dayOfMonth: int, timeInDay: int)
    requires 1 <= dayOfMonth <= DaysIn(month) && 0 <= timeInDay < MS_PER_DAY
    ensures var t := MakeTime(month, dayOfMonth, timeInDay);
            UtcMonth(t) == month && DayOfMonth(t) == dayOfMonth && TimeInDay(t) == timeInDay
  {
    hide StartOfMonth, MonthOfDay;
    var day := StartOfMonth(month) + dayOfMonth - 1;
    assert DayOf(MakeTime(month, dayOfMonth, timeInDay)) == day;
    MonthOfDayIs(day, month);
  }

  lemma {:induction false} DayOfMonthRange(t: int)
    ensures 1 <= DayOfMonth(t) <= DaysIn(UtcMonth(t)) <= 31
    ensures t == MakeTime(UtcMonth(t), DayOfMonth(t), TimeInDay(t))
  {
    hide StartOfMonth;
    MonthLength(UtcMonth(t));
  }

  /**
    * Where the result lies: on the same day of the target month when it has that day, otherwise as many days into the
    * following month as the day exceeds the target month's length. The time of day stays.
    */
  lemma {:induction false} SubtractedFields(t: int, months: int)
    ensures var r := SubtractMonthsUtc(t, months);
            var target := UtcMonth(t) - months;
            && TimeInDay(r) == TimeInDay(t)
            && (DayOfMonth(t) <= DaysIn(target) ==> UtcMonth(r) == target && DayOfMonth(r) == DayOfMonth(t))
            && (DayOfMonth(t) > DaysIn(target) ==>
                  UtcMonth(r) == target + 1 && DayOfMonth(r) == DayOfMonth(t) - DaysIn(target) <= 3)
  {
    hide StartOfMonth, UtcMonth, DayOfMonth, TimeInDay;
    var target := UtcMonth(t) - months;
    DayOfMonthRange(t);
    MonthLength(target);
    MonthLength(target + 1);
    TimeInDayRange(t);
    if DayOfMonth(t) <= DaysIn(target) {
      MakeTimeFields(target, DayOfMonth(t), TimeInDay(t));
    } else {
      assert DaysIn(target) == StartOfMonth(target + 1) - StartOfMonth(target);
      MakeTimeFields(target + 1, DayOfMonth(t) - DaysIn(target), TimeInDay(t));
    }
  }

  lemma {:induction false} TimeInDayRange(t: int)
    ensures 0 <= TimeInDay(t) < MS_PER_DAY
  {
  }

  /** Subtracting more months goes strictly further back, whatever the day of the month overflows to. */
  lemma {:induction false} SubtractIsStrictlyDecreasing(t: int, fewer: int, more: int)
    requires fewer < more
    ensures SubtractMonthsUtc(t, more) < SubtractMonthsUtc(t, fewer)
  {
    hide StartOfMonth, UtcMonth, DayOfMonth, TimeInDay;
    MonthsIncrease(UtcMonth(t) - more, UtcMonth(t) - fewer);
  }

  lemma {:induction false} SubtractNothing(t: int)
    ensures SubtractMonthsUtc(t, 0) == t
  {
    hide StartOfMonth, UtcMonth, DayOfMonth, TimeInDay;
    DayOfMonthRange(t);
  }

  /** Adding the months back restores the instant exactly when the target month has the day. */
  lemma {:induction false} SubtractRoundTrip(t: int, months: int)
    ensures SubtractMonthsUtc(SubtractMonthsUtc(t, months), -months) == t
            <==> DayOfMonth(t) <= DaysIn(UtcMonth(t) - months)
  {
    hide StartOfMonth, UtcMonth, DayOfMonth, TimeInDay, DaysIn;
    var r := SubtractMonthsUtc(t, months);
    SubtractedFields(t, months);
    DayOfMonthRange(t);
    if DayOfMonth(t) > DaysIn(UtcMonth(t) - months) {
      MonthsIncrease(UtcMonth(t), UtcMonth(t) + 1);
      DayGoesToNextMonth(t, months);
    }
  }

  lemma {:induction false} DayGoesToNextMonth(t: int, months: int)
    requires DayOfMonth(t) > DaysIn(UtcMonth(t) - months)
    ensures SubtractMonthsUtc(SubtractMonthsUtc(t, months), -months) > t
  {
    hide StartOfMonth, UtcMonth, DayOfMonth, TimeInDay;
    var r := SubtractMonthsUtc(t, months);
    SubtractedFields(t, months);
    DayOfMonthRange(t);
    assert SubtractMonthsUtc(r, -months)
        == MakeTime(UtcMonth(t) + 1, DayOfMonth(t) - DaysIn(UtcMonth(t) - months), TimeInDay(t));
    assert DaysIn(UtcMonth(t)) == StartOfMonth(UtcMonth(t) + 1) - StartOfMonth(UtcMonth(t));
  }
}
