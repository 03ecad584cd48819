/**
  * Period filters and day-boundary classification (src/domain/analytics/period.ts,
  * src/domain/analytics/date-buckets.ts, src/domain/contracts/get-computed-contract-status.ts).
  */
module AnalyticsPeriod {
  import opened Seqs
  import opened KstCalendar

  function ToKstDayIndex(t: int): int {
    (t + KST_OFFSET_MS) / MS_PER_DAY
  }

  function KstDayIndexToUtcStart(day: int): int {
    day * MS_PER_DAY - KST_OFFSET_MS
  }

  predicate IsKstMidnight(t: int) {
    (t + KST_OFFSET_MS) % MS_PER_DAY == 0
  }

  /** An instant has a day index exactly when it lies in that KST day, so the two conversions agree on every boundary. */
  lemma {:induction false} DayIndexIs(t: int, day: int)
    ensures ToKstDayIndex(t) == day <==> KstDayIndexToUtcStart(day) <= t < KstDayIndexToUtcStart(day + 1)
    ensures IsKstMidnight(KstDayIndexToUtcStart(day))
    ensures KstDayIndexToUtcStart(day) % 86_400_000 == 54_000_000 && KstDayIndexToUtcStart(0) == -32_400_000
  {
    DayRemainder(day);
  }

  // ----- the period filter -----

  lemma {:induction false} SubtractKeepsMidnight(t: int, months: int)
    requires IsKstMidnight(t)
    ensures IsKstMidnight(SubtractMonthsUtc(t, months))
  {
    hide SubtractMonthsUtc;
    SubtractedFields(t, months);
    SameTimeSameMidnight(t, SubtractMonthsUtc(t, months));
  }

  lemma {:induction false} SameTimeSameMidnight(t: int, u: int)
    requires TimeInDay(t) == TimeInDay(u)
    ensures IsKstMidnight(t) <==> IsKstMidnight(u)
  {
    MidnightByTimeInDay(t);
    MidnightByTimeInDay(u);
  }

  lemma {:induction false} MidnightByTimeInDay(t: int)
    ensures IsKstMidnight(t) <==> TimeInDay(t) == MS_PER_DAY - KST_OFFSET_MS
  {
  }

  /** The KST midnight that starts the requested first day, and the one that ends the requested last day. */
  function RequestedStart(periodStart: int): int {
    KstDayIndexToUtcStart(ToKstDayIndex(periodStart))
  }

  function RequestedEnd(periodEnd: Option<int>, now: int): int {
    KstDayIndexToUtcStart(ToKstDayIndex(if periodEnd.Some? then periodEnd.value else now) + 1)
  }

  /** The requested days count in full: from the last KST midnight up to the start, to the first one after the end. */
  lemma {:induction false} RequestedDaysAreWhole(t: int, now: int)
    ensures IsKstMidnight(RequestedStart(t)) && RequestedStart(t) <= t < RequestedStart(t) + 86_400_000
    ensures IsKstMidnight(RequestedEnd(Some(t), now))
    ensures RequestedEnd(Some(t), now) - 86_400_000 <= t < RequestedEnd(Some(t), now)
    ensures RequestedEnd(None, t) == RequestedEnd(Some(t), now)
  {
    hide IsKstMidnight;
    DayIndexIs(t, ToKstDayIndex(t));
    DayIndexIs(t, ToKstDayIndex(t) + 1);
  }

  /**
    * `resolveAnalyticsPeriod`. Both ends are KST midnights, and the period is never longer than `maxMonths`. It is
    * non-empty exactly when `maxMonths` is positive and either `defaultMonths` is positive too or the requested start
    * lies before the end. A requested start that lies before the end and is not too early is used as it is; one that
    * is too early is moved to the limit; otherwise the default window is used.
    */
  method ResolveAnalyticsPeriod(
      periodStart: Option<int>, periodEnd: Option<int>, now: int, defaultMonths: int, maxMonths: int)
    returns (start: int, endExclusive: int)
    ensures endExclusive == RequestedEnd(periodEnd, now)
    ensures IsKstMidnight(start) && IsKstMidnight(endExclusive)
    ensures SubtractMonthsUtc(endExclusive, maxMonths) <= start
    ensures start < endExclusive <==>
              maxMonths >= 1
              && (defaultMonths >= 1 || (periodStart.Some? && RequestedStart(periodStart.value) < endExclusive))
    ensures periodStart.Some?
            && SubtractMonthsUtc(endExclusive, maxMonths) <= RequestedStart(periodStart.value) < endExclusive
            ==> start == RequestedStart(periodStart.value)
    ensures periodStart.Some? && RequestedStart(periodStart.value) < SubtractMonthsUtc(endExclusive, maxMonths)
            && RequestedStart(periodStart.value) < endExclusive
            ==> start == SubtractMonthsUtc(endExclusive, maxMonths)
    ensures periodStart.None? || RequestedStart(periodStart.value) >= endExclusive
            ==> start == SubtractMonthsUtc(endExclusive, if defaultMonths <= maxMonths then defaultMonths else maxMonths)
  {
    hide SubtractMonthsUtc, IsKstMidnight;
    var todayEndExclusive := KstDayIndexToUtcStart(ToKstDayIndex(now) + 1);
    endExclusive := if periodEnd.Some? then KstDayIndexToUtcStart(ToKstDayIndex(periodEnd.value) + 1) else todayEndExclusive;
    DayIndexIs(now, ToKstDayIndex(if periodEnd.Some? then periodEnd.value else now) + 1);
    PeriodBounds(endExclusive, defaultMonths, maxMonths);
    if periodStart.Some? {
      DayIndexIs(now, ToKstDayIndex(periodStart.value));
    }
    start := if periodStart.Some? then KstDayIndexToUtcStart(ToKstDayIndex(periodStart.value))
             else SubtractMonthsUtc(endExclusive, defaultMonths);
    if start >= endExclusive {
      start := SubtractMonthsUtc(endExclusive, defaultMonths);
    }
    var earliestAllowedStart := SubtractMonthsUtc(endExclusive, maxMonths);
    if start < earliestAllowedStart {
      start := earliestAllowedStart;
    }
  }

  lemma {:induction false} PeriodBounds(endExclusive: int, defaultMonths: int, maxMonths: int)
    requires IsKstMidnight(endExclusive)
    ensures forall n {:trigger SubtractMonthsUtc(endExclusive, n)} :: n == defaultMonths || n == maxMonths ==>
              IsKstMidnight(SubtractMonthsUtc(endExclusive, n))
              && (SubtractMonthsUtc(endExclusive, n) < endExclusive <==> n >= 1)
    ensures defaultMonths <= maxMonths ==>
              SubtractMonthsUtc(endExclusive, maxMonths) <= SubtractMonthsUtc(endExclusive, defaultMonths)
    ensures defaultMonths > maxMonths ==>
              SubtractMonthsUtc(endExclusive, defaultMonths) < SubtractMonthsUtc(endExclusive, maxMonths)
  {
    hide SubtractMonthsUtc, IsKstMidnight;
    BackwardsExactly(endExclusive, defaultMonths);
    BackwardsExactly(endExclusive, maxMonths);
    if defaultMonths < maxMonths {
      SubtractIsStrictlyDecreasing(endExclusive, defaultMonths, maxMonths);
    } else if maxMonths < defaultMonths {
      SubtractIsStrictlyDecreasing(endExclusive, maxMonths, defaultMonths);
    }
  }

  lemma {:induction false} BackwardsExactly(t: int, n: int)
    requires IsKstMidnight(t)
    ensures IsKstMidnight(SubtractMonthsUtc(t, n)) && (SubtractMonthsUtc(t, n) < t <==> n >= 1)
  {
    hide SubtractMonthsUtc, IsKstMidnight;
    SubtractKeepsMidnight(t, n);
    SubtractNothing(t);
    if n > 0 {
      SubtractIsStrictlyDecreasing(t, 0, n);
    } else if n < 0 {
      SubtractIsStrictlyDecreasing(t, n, 0);
    }
  }

  // ----- status and expiration bucket -----

  datatype ContractStatus = DRAFT | ACTIVE | EXPIRING | EXPIRED | TERMINATED | ARCHIVED

  const EXPIRING_WINDOW_DAYS := 30

  function GetComputedContractStatus(status: ContractStatus, endDate: Option<int>, now: int): ContractStatus {
    if status in {DRAFT, TERMINATED, ARCHIVED} then status
    else if endDate.None? then status
    else
      var daysRemaining := ToKstDayIndex(endDate.value) - ToKstDayIndex(now);
      if daysRemaining < 0 then EXPIRED
      else if daysRemaining <= EXPIRING_WINDOW_DAYS then EXPIRING
      else status
  }

  datatype ExpirationBucket =
    | BucketExpired | Today | Days1To7 | Days8To30 | Days31To90 | Days91To180 | Days181Plus | NoEndDate

  function ExpirationBucketForEndDate(endDate: Option<int>, now: int): ExpirationBucket {
    if endDate.None? then NoEndDate
    else
      var daysRemaining := ToKstDayIndex(endDate.value) - ToKstDayIndex(now);
      if daysRemaining < 0 then BucketExpired
      else if daysRemaining == 0 then Today
      else if daysRemaining <= 7 then Days1To7
      else if daysRemaining <= 30 then Days8To30
      else if daysRemaining <= 90 then Days31To90
      else if daysRemaining <= 180 then Days91To180
      else Days181Plus
  }

  /** The whole KST days from the day of `now` on: `n` days after today begins here. */
  function DayStart(now: int, n: int): int {
    KstDayIndexToUtcStart(ToKstDayIndex(now) + n)
  }

  lemma {:induction false} DaysRemainingByInstant(endDate: int, now: int, n: int)
    ensures ToKstDayIndex(endDate) - ToKstDayIndex(now) < n <==> endDate < DayStart(now, n)
  {
    DayIndexIs(endDate, ToKstDayIndex(endDate));
    if ToKstDayIndex(endDate) < ToKstDayIndex(now) + n {
      assert KstDayIndexToUtcStart(ToKstDayIndex(endDate) + 1) <= DayStart(now, n);
    }
  }

  predicate IsSetByHand(status: ContractStatus) {
    status == DRAFT || status == TERMINATED || status == ARCHIVED
  }

  /**
    * The displayed status in terms of instants: hand-set statuses stay; any other contract that ended before today began
    * in KST is displayed as expired, one that ends today or within the next thirty days as expiring, and the rest with
    * the stored status, whatever that is.
    */
  lemma {:induction false} StatusByInstant(status: ContractStatus, endDate: Option<int>, now: int)
    ensures GetComputedContractStatus(status, endDate, now)
            == if IsSetByHand(status) || endDate.None? then status
               else if endDate.value < DayStart(now, 0) then EXPIRED
               else if endDate.value < DayStart(now, 31) then EXPIRING
               else status
  {
    if endDate.Some? {
      DaysRemainingByInstant(endDate.value, now, 0);
      DaysRemainingByInstant(endDate.value, now, 31);
    }
  }

  /** The bucket in terms of instants: each begins at the KST midnight at which the one before it ends. */
  lemma {:induction false} BucketByInstant(endDate: int, now: int)
    ensures ExpirationBucketForEndDate(Some(endDate), now)
            == if endDate < DayStart(now, 0) then BucketExpired
               else if endDate < DayStart(now, 1) then Today
               else if endDate < DayStart(now, 8) then Days1To7
               else if endDate < DayStart(now, 31) then Days8To30
               else if endDate < DayStart(now, 91) then Days31To90
               else if endDate < DayStart(now, 181) then Days91To180
               else Days181Plus
  {
    DaysRemainingByInstant(endDate, now, 0);
    DaysRemainingByInstant(endDate, now, 1);
    DaysRemainingByInstant(endDate, now, 8);
    DaysRemainingByInstant(endDate, now, 31);
    DaysRemainingByInstant(endDate, now, 91);
    DaysRemainingByInstant(endDate, now, 181);
  }

  /** The displayed status and the bucket say the same about being expired and about being due within thirty days. */
  predicate Agrees(displayed: ContractStatus, bucket: ExpirationBucket) {
    && (displayed == EXPIRED <==> bucket == BucketExpired)
    && (displayed == EXPIRING <==> bucket == Today || bucket == Days1To7 || bucket == Days8To30)
  }

  predicate EndsWithinWindow(endDate: Option<int>, now: int) {
    endDate.Some? && endDate.value < DayStart(now, 31)
  }

  /**
    * Exactly when status and bucket agree. For a status that is not set by hand: when it is stored as active, or the
    * contract ended or ends within the next thirty days. For one set by hand: when it does neither.
    */
  lemma {:induction false} BucketAgreesWithStatusExactly(status: ContractStatus, endDate: Option<int>, now: int)
    ensures Agrees(GetComputedContractStatus(status, endDate, now), ExpirationBucketForEndDate(endDate, now))
            <==> if IsSetByHand(status) then !EndsWithinWindow(endDate, now)
                 else status == ACTIVE || EndsWithinWindow(endDate, now)
  {
    hide ToKstDayIndex, KstDayIndexToUtcStart;
    StatusByInstant(status, endDate, now);
    if endDate.Some? {
      BucketByInstant(endDate.value, now);
      DaysIncrease(now, 0, 1);
      DaysIncrease(now, 1, 8);
      DaysIncrease(now, 8, 31);
      DaysIncrease(now, 31, 91);
      DaysIncrease(now, 91, 181);
    }
  }

  lemma {:induction false} DaysIncrease(now: int, m: int, n: int)
    requires m < n
    ensures DayStart(now, m) < DayStart(now, n)
  {
  }

  /** Stored statuses outlive their dates: displayed as expired with 200 days to go, and as expiring with no end at all. */
  lemma {:induction false} StoredStatusDisagrees(now: int)
    ensures var later := now + 200 * MS_PER_DAY;
            && GetComputedContractStatus(EXPIRED, Some(later), now) == EXPIRED
            && ExpirationBucketForEndDate(Some(later), now) == Days181Plus
    ensures GetComputedContractStatus(EXPIRING, None, now) == EXPIRING && ExpirationBucketForEndDate(None, now) == NoEndDate
  {
    assert ToKstDayIndex(now + 200 * MS_PER_DAY) == ToKstDayIndex(now) + 200;
  }
}
