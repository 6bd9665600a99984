/** The next weekly occurrence of a repair: controllers/repair_schedules.go:112-122, 171-231.
    Instants are seconds since the epoch, in UTC. */
module Reschedule {
  import opened Text

  const DAY := 86400
  const WEEK := 7 * DAY

  /** time.Parse accepts a trigger or does not; an absent one is the empty string. */
  datatype Trigger = Absent | Malformed | At(instant: int)

  /******* Wall clock *******/

  /** time.Weekday: the epoch was a Thursday, and Sunday is 0. */
  function Weekday(day: int): int {
    (day + 4) % 7
  }

  function CheckSunday(day: int): int {
    if day == 0 then 7 else day
  }

  function TwoDigits(n: nat): string
    requires n < 100
  {
    [Digit(n / 10), Digit(n % 10)]
  }

  /** The format "15:04:05". */
  function Hms(t: int): string {
    var s := t % DAY;
    TwoDigits(s / 3600) + (":" + (TwoDigits(s / 60 % 60) + (":" + TwoDigits(s % 60))))
  }

  lemma TwoDigitsOrder(m: nat, n: nat)
    requires m < 100 && n < 100
    ensures LexLess(TwoDigits(m), TwoDigits(n)) <==> m < n
    ensures TwoDigits(m) == TwoDigits(n) <==> m == n
  {
    var a, b := TwoDigits(m), TwoDigits(n);
    assert a[1..] == [Digit(m % 10)] && b[1..] == [Digit(n % 10)];
    assert LexLe(a[1..], b[1..]) <==> m % 10 <= n % 10;
    assert a[0] == Digit(m / 10) && a[1] == Digit(m % 10);
    assert b[0] == Digit(n / 10) && b[1] == Digit(n % 10);
  }

  lemma ClockOrder(s: nat, r: nat)
    requires s < DAY && r < DAY
    ensures s < r <==> || s / 3600 < r / 3600
                       || (s / 3600 == r / 3600 && (s / 60 % 60 < r / 60 % 60 || (s / 60 % 60 == r / 60 % 60 && s % 60 < r % 60)))
  {
    assert s / 60 == s / 3600 * 60 + s / 60 % 60;
    assert r / 60 == r / 3600 * 60 + r / 60 % 60;
  }

  /** Comparing the texts compares the times of day. */
  lemma HmsOrder(a: int, b: int)
    ensures LexLess(Hms(a), Hms(b)) <==> a % DAY < b % DAY
  {
    hide LexLess, TwoDigits;
    var s, r := a % DAY, b % DAY;
    ClockOrder(s, r);
    TwoDigitsOrder(s / 3600, r / 3600);
    TwoDigitsOrder(s / 60 % 60, r / 60 % 60);
    TwoDigitsOrder(s % 60, r % 60);
    Lengths(s / 3600, r / 3600);
    Lengths(s / 60 % 60, r / 60 % 60);
    ColonOrder();
    var m, n := TwoDigits(s / 60 % 60) + (":" + TwoDigits(s % 60)), TwoDigits(r / 60 % 60) + (":" + TwoDigits(r % 60));
    LexLessConcat(":", ":", TwoDigits(s % 60), TwoDigits(r % 60));
    LexLessConcat(TwoDigits(s / 60 % 60), TwoDigits(r / 60 % 60), ":" + TwoDigits(s % 60), ":" + TwoDigits(r % 60));
    LexLessConcat(":", ":", m, n);
    LexLessConcat(TwoDigits(s / 3600), TwoDigits(r / 3600), ":" + m, ":" + n);
  }

  lemma Lengths(m: nat, n: nat)
    requires m < 100 && n < 100
    ensures |TwoDigits(m)| == |TwoDigits(n)|
  {
  }

  lemma ColonOrder()
    ensures !LexLess(":", ":")
  {
  }

  /******* rescheduleTimestamp *******/

  /** How many days after today the repair is due. */
  function DateShift(now: int, trigger: int): int {
    var dowDiff := CheckSunday(Weekday(now / DAY)) - CheckSunday(Weekday(trigger / DAY));
    if dowDiff > 0 then 7 - dowDiff
    else if dowDiff < 0 then -dowDiff
    else if LexLess(Hms(now), Hms(trigger)) then 0
    else if LexLess(Hms(trigger), Hms(now)) then 7 - dowDiff
    else 0
  }

  /** The first moment from now on that is a whole number of weeks away from the trigger. */
  function NextOccurrence(now: int, trigger: int): int {
    now + (trigger - now) % WEEK
  }

  function Rescheduled(now: int, trigger: Trigger): Trigger {
    if trigger.At? && trigger.instant < now then At(NextOccurrence(now, trigger.instant)) else trigger
  }

  /** What is sent to Reaper: a malformed trigger is dropped. */
  function Prepared(now: int, trigger: Trigger): Trigger {
    if trigger.Malformed? then Absent else Rescheduled(now, trigger)
  }

  /** A trigger that can be read and does not lie in the past. */
  predicate Due(now: int, t: Trigger) {
    !t.Malformed? && (t.At? ==> t.instant >= now)
  }

  /** Reaper never gets any other, and gets one exactly when one was given that can be read. */
  lemma PreparedIsDue(now: int, trigger: Trigger)
    ensures var t := Prepared(now, trigger);
            Due(now, t) && (t.Absent? <==> !trigger.At?)
  {
  }

  lemma Weekdays(a: int, b: int) returns (weeks: int)
    ensures a - b == 7 * weeks + CheckSunday(Weekday(a)) - CheckSunday(Weekday(b))
  {
    var x, y := (a + 4) / 7, (b + 4) / 7;
    weeks := x - y - (if Weekday(a) == 0 then 1 else 0) + if Weekday(b) == 0 then 1 else 0;
    assert a + 4 == 7 * x + Weekday(a) && b + 4 == 7 * y + Weekday(b);
  }

  /** The shift is at most a week and leads to the weekday and time of the trigger, not before now. */
  lemma ShiftIsNext(now: int, trigger: int)
    ensures 0 <= DateShift(now, trigger) <= 7
    ensures (now / DAY + DateShift(now, trigger)) * DAY + trigger % DAY == NextOccurrence(now, trigger)
  {
    hide Hms, LexLess;
    HmsOrder(now, trigger);
    HmsOrder(trigger, now);
    var shift := DateShift(now, trigger);
    var weeks := Weekdays(now / DAY, trigger / DAY);
    var due := (now / DAY + shift) * DAY + trigger % DAY;
    assert exists k :: due - trigger == WEEK * k by {
      if shift == -(CheckSunday(Weekday(now / DAY)) - CheckSunday(Weekday(trigger / DAY))) {
        assert due - trigger == WEEK * weeks;
      } else {
        assert due - trigger == WEEK * (weeks + 1);
      }
    }
    var k :| due - trigger == WEEK * k;
    assert now <= due < now + WEEK;
    assert (trigger - now) == (due - now) + WEEK * (-k);
    ModuloShift(due - now, -k);
  }

  lemma ModuloShift(x: int, k: int)
    requires 0 <= x < WEEK
    ensures (x + WEEK * k) % WEEK == x
  {
  }

  /** The next occurrence is the least instant not before now, in step with the trigger by weeks. */
  lemma NextOccurrenceIsLeast(now: int, trigger: int, other: int)
    ensures NextOccurrence(now, trigger) >= now && (NextOccurrence(now, trigger) - trigger) % WEEK == 0
    ensures other >= now && (other - trigger) % WEEK == 0 ==> NextOccurrence(now, trigger) <= other
  {
    var k, m := (trigger - now) / WEEK, (other - trigger) / WEEK;
    var next := NextOccurrence(now, trigger);
    assert next - trigger == WEEK * (-k);
    ModuloShift(0, -k);
    if (other - trigger) % WEEK == 0 {
      assert other - next == WEEK * (m + k);
    }
  }

  /** The same weekday and time of day, not before now, and less than a week from now. */
  predicate IsNextOccurrence(now: int, trigger: int, next: Trigger) {
    next.At? && now <= next.instant < now + 604800 && (next.instant - trigger) % 604800 == 0
  }

  lemma NextOccurrenceIs(now: int, trigger: int)
    ensures IsNextOccurrence(now, trigger, At(NextOccurrence(now, trigger)))
  {
    NextOccurrenceIsLeast(now, trigger, now);
  }

  /** Rescheduling twice at one moment is rescheduling once. */
  lemma RescheduleIdempotent(now: int, trigger: Trigger)
    ensures Rescheduled(now, Rescheduled(now, trigger)) == Rescheduled(now, trigger)
    ensures trigger.At? && trigger.instant >= now ==> Rescheduled(now, trigger) == trigger
  {
  }

  class Repair {
    var trigger: Trigger

    constructor (trigger: Trigger)
      ensures this.trigger == trigger
    {
      this.trigger := trigger;
    }

    /** rescheduleTimestamp: the field is overwritten in place. */
    method RescheduleTimestamp(now: int) returns (ok: bool)
      modifies `trigger
      ensures trigger == Rescheduled(now, old(trigger)) && (ok <==> !old(trigger).Malformed?)
      ensures old(trigger).At? && old(trigger).instant < now ==> IsNextOccurrence(now, old(trigger).instant, trigger)
      ensures !(old(trigger).At? && old(trigger).instant < now) ==> trigger == old(trigger)
    {
      if trigger.At? {
        NextOccurrenceIs(now, trigger.instant);
      }
      if trigger.Absent? {
        return true;
      }
      if trigger.Malformed? {
        return false;
      }
      var timestampScheduler, timestampActual := Hms(trigger.instant), Hms(now);
      var dateShift := 0;
      if now > trigger.instant {
        var dowNow := CheckSunday(Weekday(now / DAY));
        var dowScheduler := CheckSunday(Weekday(trigger.instant / DAY));
        var dowDiff := dowNow - dowScheduler;
        if dowDiff > 0 {
          dateShift := 7 - dowDiff;
        } else if dowDiff < 0 {
          dateShift := -dowDiff;
        } else if LexLess(timestampActual, timestampScheduler) {
          dateShift := 0;
        } else if LexLess(timestampScheduler, timestampActual) {
          dateShift := 7 - dowDiff;
        }
        ShiftIsNext(now, trigger.instant);
        trigger := At((now / DAY + dateShift) * DAY + trigger.instant % DAY);
      }
      return true;
    }

    /** createRepairSchedule: a malformed trigger is dropped before the schedule is sent. */
    method PrepareForReaper(now: int)
      modifies `trigger
      ensures trigger == Prepared(now, old(trigger))
      ensures old(trigger).At? && old(trigger).instant < now ==> IsNextOccurrence(now, old(trigger).instant, trigger)
      ensures old(trigger).At? && old(trigger).instant >= now ==> trigger == old(trigger)
      ensures !old(trigger).At? ==> trigger == Absent
    {
      var ok := RescheduleTimestamp(now);
      if !ok {
        trigger := Absent;
      }
    }
  }
}
