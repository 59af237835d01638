/** Account subscriptions: when one ends, which one is active, and that a user's never overlap. */
module Subscriptions {
  import opened Wrappers
  import opened Calendars

  const DAY: int := 86_400_000
  const KST_OFFSET: int := 9 * 3_600_000

  /** The largest time value a `Date` can hold, in milliseconds. */
  const MAX_TIME: int := 8_640_000_000_000_000

  datatype Error = InvalidInput | OutOfRange

  predicate InRange(day: int) {
    day * DAY <= MAX_TIME
  }

  /** A calendar given by the first day of each month, month-long periods from 1970 on. */
  ghost predicate IsCalendar(start: int -> int) {
    IsScale(start) && start(EPOCH_MONTH) == 0
  }

  /** The day number that `Date.UTC` computes; date 0 is the last day of the month before. */
  function MakeDay(start: int -> int, year: int, month: int, date: int): int {
    start(12 * year + month) + date - 1
  }

  /** The date within the month that a `Date` for day number `day` reports; every day here is at or after 1970. */
  function DateOf(start: int -> int, day: int): int
    requires IsCalendar(start)
  {
    if day < 0 then 0 else day - start(Locate(start, EPOCH_MONTH, day)) + 1
  }

  /** The end of a subscription paid at `paid`; None stands for an invalid date or a non-integer duration. */
  function CalculateEnd(start: int -> int, paid: Option<nat>, months: Option<int>): Result<int, Error>
    requires IsCalendar(start)
  {
    if paid == None || paid.value > MAX_TIME || months == None || months.value < 1 then Err(InvalidInput)
    else if paid.value + KST_OFFSET > MAX_TIME then Err(OutOfRange)
    else
      var day := (paid.value + KST_OFFSET) / DAY;
      var k := Locate(start, EPOCH_MONTH, day);
      var year, month, date := k / 12, k % 12, DateOf(start, day);
      var monthIndex := month + months.value;
      var targetYear := year + monthIndex / 12;
      var targetMonth := (monthIndex % 12 + 12) % 12;
      var lastOfMonth := MakeDay(start, targetYear, targetMonth + 1, 0);
      var finalInclusiveDay := Min(date, DateOf(start, lastOfMonth));
      var nextDay := MakeDay(start, targetYear, targetMonth, finalInclusiveDay + 1);
      if !InRange(lastOfMonth) || !InRange(nextDay) then Err(OutOfRange)
      else Ok(nextDay * DAY - KST_OFFSET)
  }

  /** On the Gregorian calendar. */
  function CalculateSubscriptionEnd(paid: Option<nat>, months: Option<int>): Result<int, Error> {
    MonthsAreScale();
    CalculateEnd(MonthStart, paid, months)
  }

  // ---- The last included day -----------------------------------------------------------------

  /** The length of period `k`. */
  function Length(start: int -> int, k: int): int {
    start(k + 1) - start(k)
  }

  /** `n` months after `day`, clamped to the length of that month. */
  function LastDay(start: int -> int, day: nat, n: nat): int
    requires IsCalendar(start)
  {
    var k := Locate(start, EPOCH_MONTH, day);
    start(k + n) + Min(day - start(k) + 1, Length(start, k + n)) - 1
  }

  /** The last day lies `n` months later, at the same day of the month or at the month's last day. */
  lemma LastDayIsClamped(start: int -> int, day: nat, n: nat)
    requires IsCalendar(start)
    ensures var k, last := Locate(start, EPOCH_MONTH, day), LastDay(start, day, n);
            && last >= day && Locate(start, EPOCH_MONTH, last) == k + n
            && DateOf(start, last) == Min(DateOf(start, day), Length(start, k + n))
  {
    var k, last := Locate(start, EPOCH_MONTH, day), LastDay(start, day, n);
    assert MonthLong(start, k + n);
    LastDaySpan(start, day, n);
    ContainsIsLocate(start, last, k + n);
  }

  /** The last day is 28n to 31n days later. */
  lemma LastDaySpan(start: int -> int, day: nat, n: nat)
    requires IsCalendar(start)
    ensures 28 * n <= LastDay(start, day, n) - day <= 31 * n
  {
    var k := Locate(start, EPOCH_MONTH, day);
    Span(start, k, n);
    Span(start, k + 1, n);
    assert start(k + 1 + n) == start(k + n + 1);
  }

  lemma LastDayMonotone(start: int -> int, a: nat, b: nat, n: nat)
    requires IsCalendar(start) && a <= b
    ensures LastDay(start, a, n) <= LastDay(start, b, n)
  {
    var k, m := Locate(start, EPOCH_MONTH, a), Locate(start, EPOCH_MONTH, b);
    PeriodMonotone(start, a, b, k, m);
    if k < m {
      Span(start, k + n + 1, m - k - 1);
      assert MonthLong(start, m + n);
    }
  }

  lemma LastDayStrict(start: int -> int, day: nat, n: nat, more: nat)
    requires IsCalendar(start) && n < more
    ensures LastDay(start, day, n) < LastDay(start, day, more)
  {
    var k := Locate(start, EPOCH_MONTH, day);
    Span(start, k + n + 1, more - n - 1);
    assert MonthLong(start, k + more);
  }

  // ---- The subscription end ------------------------------------------------------------------

  /** The KST day of a time. */
  function KstDay(time: nat): nat {
    (time + KST_OFFSET) / DAY
  }

  lemma TargetMonth(k: int, n: nat)
    ensures 12 * (k / 12 + (k % 12 + n) / 12) + ((k % 12 + n) % 12 + 12) % 12 == k + n
  {
  }

  /** The last day of a month reports the month's length. */
  lemma LastDateIsLength(start: int -> int, k: int)
    requires IsCalendar(start) && k >= EPOCH_MONTH
    ensures DateOf(start, start(k + 1) - 1) == Length(start, k)
  {
    Span(start, EPOCH_MONTH, k - EPOCH_MONTH);
    assert MonthLong(start, k);
    ContainsIsLocate(start, start(k + 1) - 1, k);
  }

  /** The last day of the target month, which the computation looks at on its way. */
  function TargetMonthEnd(start: int -> int, paid: nat, n: nat): int
    requires IsCalendar(start)
  {
    start(Locate(start, EPOCH_MONTH, KstDay(paid)) + n + 1) - 1
  }

  /** When it succeeds, the result is the KST midnight that ends the last included day; it fails exactly for an invalid
      input or for dates beyond the range of `Date`. */
  lemma EndIsMidnight(start: int -> int, paid: nat, n: int)
    requires IsCalendar(start)
    ensures var r := CalculateEnd(start, Some(paid), Some(n));
            var day := (paid + 32_400_000) / 86_400_000;
            if paid > 8_640_000_000_000_000 || n < 1 then r == Err(InvalidInput)
            else if paid + 32_400_000 > 8_640_000_000_000_000
                 || TargetMonthEnd(start, paid, n) * 86_400_000 > 8_640_000_000_000_000
                 || (LastDay(start, day, n) + 1) * 86_400_000 > 8_640_000_000_000_000
            then r == Err(OutOfRange)
            else r == Ok((LastDay(start, day, n) + 1) * 86_400_000 - 32_400_000)
  {
    if paid <= MAX_TIME && n >= 1 {
      var k := Locate(start, EPOCH_MONTH, KstDay(paid));
      TargetMonth(k, n);
      LastDateIsLength(start, k + n);
      var year, month := k / 12 + (k % 12 + n) / 12, ((k % 12 + n) % 12 + 12) % 12;
      assert 12 * year + month == k + n && 12 * year + (month + 1) == k + n + 1;
    }
  }

  lemma MidnightArithmetic(paid: nat, last: int, n: nat, end: int)
    requires end == (last + 1) * DAY - KST_OFFSET && 28 * n <= last - KstDay(paid) <= 31 * n
    ensures (end + KST_OFFSET) % DAY == 0 && (end + KST_OFFSET) / DAY - 1 == last
    ensures 28 * n * DAY < end - paid <= (31 * n + 1) * DAY
  {
    WholeDays(last + 1);
    DayBounds(paid);
    BetweenDays(paid + KST_OFFSET, KstDay(paid), last, n);
  }

  lemma WholeDays(k: int)
    ensures (k * DAY) % DAY == 0 && k * DAY / DAY == k
  {
  }

  lemma DayBounds(paid: nat)
    ensures KstDay(paid) * DAY <= paid + KST_OFFSET < KstDay(paid) * DAY + DAY
  {
  }

  lemma BetweenDays(time: int, day: int, last: int, n: nat)
    requires day * DAY <= time < day * DAY + DAY && 28 * n <= last - day <= 31 * n
    ensures 28 * n * DAY < (last + 1) * DAY - time <= (31 * n + 1) * DAY
  {
  }

  /** A successful end is a KST midnight; the last included KST day is the paid day `n` months later, clamped to that
      month's length; and the subscription is longer than 28 days a month and at most one day over 31 days a month. */
  ghost predicate EndsRight(start: int -> int, paid: nat, n: int, end: int)
    requires IsCalendar(start)
  {
    var day, last := (paid + 9 * 3_600_000) / 86_400_000, (end + 9 * 3_600_000) / 86_400_000 - 1;
    && n >= 1 && (end + 9 * 3_600_000) % 86_400_000 == 0 && last >= day
    && Locate(start, EPOCH_MONTH, last) == Locate(start, EPOCH_MONTH, day) + n
    && DateOf(start, last) == Min(DateOf(start, day), Length(start, Locate(start, EPOCH_MONTH, last)))
    && 28 * n * 86_400_000 < end - paid <= (31 * n + 1) * 86_400_000
  }

  lemma EndIsRight(start: int -> int, paid: nat, n: int)
    requires IsCalendar(start) && CalculateEnd(start, Some(paid), Some(n)).Ok?
    ensures EndsRight(start, paid, n, CalculateEnd(start, Some(paid), Some(n)).value)
  {
    EndIsMidnight(start, paid, n);
    MidnightIsRight(start, paid, n, CalculateEnd(start, Some(paid), Some(n)).value);
  }

  lemma MidnightIsRight(start: int -> int, paid: nat, n: nat, end: int)
    requires IsCalendar(start) && n >= 1 && end == (LastDay(start, KstDay(paid), n) + 1) * DAY - KST_OFFSET
    ensures EndsRight(start, paid, n, end)
  {
    LastDayIsClamped(start, KstDay(paid), n);
    LastDaySpan(start, KstDay(paid), n);
    MidnightArithmetic(paid, LastDay(start, KstDay(paid), n), n, end);
  }

  /** On the Gregorian calendar every successful end is right. */
  lemma SubscriptionEndIsRight(paid: nat, n: int)
    requires CalculateSubscriptionEnd(Some(paid), Some(n)).Ok?
    ensures IsCalendar(MonthStart)
            && EndsRight(MonthStart, paid, n, CalculateSubscriptionEnd(Some(paid), Some(n)).value)
  {
    MonthsAreScale();
    EndIsRight(MonthStart, paid, n);
  }

  /** Paying later never ends earlier, and more months always end later. */
  lemma SubscriptionEndMonotone(paid: nat, later: nat, n: int, more: int)
    requires paid <= later && n < more
    requires CalculateSubscriptionEnd(Some(paid), Some(n)).Ok? && CalculateSubscriptionEnd(Some(later), Some(n)).Ok?
    requires CalculateSubscriptionEnd(Some(paid), Some(more)).Ok?
    ensures CalculateSubscriptionEnd(Some(paid), Some(n)).value <= CalculateSubscriptionEnd(Some(later), Some(n)).value
    ensures CalculateSubscriptionEnd(Some(paid), Some(n)).value < CalculateSubscriptionEnd(Some(paid), Some(more)).value
  {
    MonthsAreScale();
    EndIsMidnight(MonthStart, paid, n);
    EndIsMidnight(MonthStart, later, n);
    EndIsMidnight(MonthStart, paid, more);
    LastDayMonotone(MonthStart, KstDay(paid), KstDay(later), n);
    LastDayStrict(MonthStart, KstDay(paid), n, more);
  }

  // ---- Subscribing ---------------------------------------------------------------------------

  type UserId = nat

  /** A subscription record; one without a user belongs to every user, one without a start starts when paid. */
  datatype Subscription = Subscription(user: Option<UserId>, startsAt: Option<int>, paidAt: int, endsAt: int,
                                       paid: bool)

  function StartOf(s: Subscription): int {
    if s.startsAt.Some? then s.startsAt.value else s.paidAt
  }

  predicate IsOf(s: Subscription, user: UserId) {
    (s.user == None || s.user == Some(user)) && s.paid
  }

  predicate IsActive(s: Subscription, now: int) {
    StartOf(s) <= now < s.endsAt
  }

  /** A paid subscription of the user, or of every user, that has started at `now` and not ended. */
  ghost predicate Runs(s: Subscription, user: UserId, now: int) {
    && s.paid && (s.user == Some(user) || s.user == None) && now < s.endsAt
    && (if s.startsAt.Some? then s.startsAt.value <= now else s.paidAt <= now)
  }

  /** The user's active subscription that ends last, the first of them on a tie. */
  function ActiveSubscription(subscriptions: seq<Subscription>, user: UserId, now: int): Option<Subscription> {
    if subscriptions == [] then None
    else
      var before := ActiveSubscription(subscriptions[..|subscriptions| - 1], user, now);
      var last := subscriptions[|subscriptions| - 1];
      if !IsOf(last, user) || !IsActive(last, now) || (before.Some? && last.endsAt <= before.value.endsAt) then before
      else Some(last)
  }

  /** Every running subscription of the user that is listed before `s` ends earlier. */
  ghost predicate IsFirst(subscriptions: seq<Subscription>, user: UserId, now: int, s: Subscription) {
    exists i :: 0 <= i < |subscriptions| && subscriptions[i] == s && ComesFirst(subscriptions, user, now, i)
  }

  ghost predicate ComesFirst(subscriptions: seq<Subscription>, user: UserId, now: int, i: nat)
    requires i < |subscriptions|
  {
    forall j :: 0 <= j < i && Runs(subscriptions[j], user, now) ==> subscriptions[j].endsAt < subscriptions[i].endsAt
  }

  /** It is one of the user's active subscriptions, none of them ends later, the first one is taken on a tie,
      and there is none exactly when no subscription of the user is active. */
  lemma {:induction false} ActiveEndsLast(subscriptions: seq<Subscription>, user: UserId, now: int)
    ensures var r := ActiveSubscription(subscriptions, user, now);
            && (r.Some? ==> r.value in subscriptions && Runs(r.value, user, now))
            && (forall s :: s in subscriptions && Runs(s, user, now) ==> r.Some? && s.endsAt <= r.value.endsAt)
            && (r.Some? ==> IsFirst(subscriptions, user, now, r.value))
    decreases |subscriptions|
  {
    if subscriptions != [] {
      var n := |subscriptions| - 1;
      var before := ActiveSubscription(subscriptions[..n], user, now);
      ActiveEndsLast(subscriptions[..n], user, now);
      assert subscriptions == subscriptions[..n] + [subscriptions[n]];
      assert forall j :: 0 <= j < n ==> subscriptions[..n][j] == subscriptions[j];
      if before.Some? {
        var i :| 0 <= i < n && subscriptions[..n][i] == before.value && ComesFirst(subscriptions[..n], user, now, i);
        assert subscriptions[i] == before.value && ComesFirst(subscriptions, user, now, i);
      }
      assert ActiveSubscription(subscriptions, user, now) != before ==> ComesFirst(subscriptions, user, now, n);
    }
  }

  /** Two subscriptions are never active at the same time. */
  predicate Disjoint(a: Subscription, b: Subscription) {
    a.endsAt <= StartOf(b) || b.endsAt <= StartOf(a)
  }

  /** What one user sees: none starts after `now`, and no two overlap. */
  ghost predicate Orderly(subscriptions: seq<Subscription>, user: UserId, now: int) {
    && (forall i :: 0 <= i < |subscriptions| && IsOf(subscriptions[i], user) ==> StartOf(subscriptions[i]) <= now)
    && (forall i, j :: 0 <= i < j < |subscriptions| && IsOf(subscriptions[i], user) && IsOf(subscriptions[j], user)
          ==> Disjoint(subscriptions[i], subscriptions[j]))
  }

  class LectureApp {
    var subscriptions: seq<Subscription>

    constructor (stored: seq<Subscription>)
      ensures subscriptions == stored
    {
      subscriptions := stored;
    }

    /** Adds a paid subscription from now on, unless the user may not subscribe or has an active one. */
    method CompleteDemoSubscription(user: UserId, months: Option<int>, maySubscribe: bool, now: nat)
      returns (r: Option<Error>)
      modifies this
      ensures (forall u: UserId, t: int :: Orderly(old(subscriptions), u, t) && t <= now ==>
                 Orderly(subscriptions, u, now))
      ensures if !maySubscribe || (exists s :: s in old(subscriptions) && Runs(s, user, now))
              then r == None && subscriptions == old(subscriptions)
              else if CalculateSubscriptionEnd(Some(now), months).Err?
              then r == Some(CalculateSubscriptionEnd(Some(now), months).error) && subscriptions == old(subscriptions)
              else r == None && subscriptions == old(subscriptions) + [
                     Subscription(Some(user), Some(now), now, CalculateSubscriptionEnd(Some(now), months).value, true)]
    {
      ActiveEndsLast(subscriptions, user, now);
      if !maySubscribe || ActiveSubscription(subscriptions, user, now).Some? {
        return None;
      }
      var end := CalculateSubscriptionEnd(Some(now), months);
      if end.Err? {
        return Some(end.error);
      }
      var added := Subscription(Some(user), Some(now), now, end.value, true);
      AddedIsDisjoint(subscriptions, user, now, added);
      subscriptions := subscriptions + [added];
      return None;
    }
  }

  /** A subscription added while the user has no active one overlaps none of the user's. */
  lemma AddedIsDisjoint(subscriptions: seq<Subscription>, user: UserId, now: int, added: Subscription)
    requires !exists s :: s in subscriptions && IsOf(s, user) && IsActive(s, now)
    requires added.user == Some(user) && StartOf(added) == now
    ensures forall u: UserId, t: int :: Orderly(subscriptions, u, t) && t <= now ==>
              Orderly(subscriptions + [added], u, now)
  {
    forall u: UserId, t: int | Orderly(subscriptions, u, t) && t <= now
      ensures Orderly(subscriptions + [added], u, now)
    {
      forall i | 0 <= i < |subscriptions| && IsOf(subscriptions[i], u) && IsOf(added, u)
        ensures Disjoint(subscriptions[i], added)
      {
        assert subscriptions[i] in subscriptions && !IsActive(subscriptions[i], now);
      }
    }
  }
}
