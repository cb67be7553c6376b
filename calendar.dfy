/** Calendar days as Python's proleptic Gregorian ordinals, and the rule that
    picks the comparison day for a target date. */
module Calendar {

  /** `date.min` (0001-01-01) is ordinal 1 and `date.max` (9999-12-31) is
      ordinal 3652059; date arithmetic outside this range raises OverflowError. */
  const MinDay: int := 1
  const MaxDay: int := 3652059

  predicate InRange(d: int) {
    MinDay <= d <= MaxDay
  }

  /** Python's `date.weekday()`: Monday is 0 and Sunday is 6 (ordinal 1 is a Monday). */
  function Weekday(d: int): (w: int)
    ensures 0 <= w < 7
    ensures d == MinDay ==> w == 0
  {
    (d + 6) % 7
  }

  predicate IsWeekend(d: int) {
    Weekday(d) >= 5
  }

  /** Stepping one day forward advances the weekday by one, wrapping after Sunday. */
  lemma WeekdayNext(d: int)
    ensures Weekday(d + 1) == (Weekday(d) + 1) % 7
  {
  }

  /** What the start of the calculation decides about the target date:
      refuse a weekend, raise because the comparison day would precede
      `date.min`, or compare against the given day. */
  datatype DayRule = Weekend | BeforeMinDay | Compare(day: int)

  /** The comparison day: three days back from a Monday, one day back otherwise. */
  function ComparisonDay(target: int): (r: DayRule)
    ensures r.Weekend? <==> IsWeekend(target)
    ensures r.Compare? ==> MinDay <= r.day < target
    ensures r.BeforeMinDay? ==> target - 3 < MinDay
  {
    if Weekday(target) >= 5 then Weekend
    else
      var prev := if Weekday(target) == 0 then target - 3 else target - 1;
      if prev < MinDay then BeforeMinDay else Compare(prev)
  }

  /** For a weekday target, the comparison day is the latest weekday before it:
      three days back on a Monday, one day back otherwise, and no weekday lies
      strictly between the two. Only `date.min` itself, a Monday, has no
      comparison day inside the calendar. */
  lemma ComparisonDayIsPreviousWeekday(target: int)
    requires InRange(target) && !IsWeekend(target)
    ensures ComparisonDay(target).BeforeMinDay? <==> target == MinDay
    ensures ComparisonDay(target).Compare? ==>
      var p := ComparisonDay(target).day;
      && (Weekday(target) == 0 ==> p == target - 3)
      && (Weekday(target) != 0 ==> p == target - 1)
      && !IsWeekend(p)
      && forall d :: p < d < target ==> IsWeekend(d)
  {
    var w := Weekday(target);
    if w == 0 {
      WeekdayNext(target - 3);
      WeekdayNext(target - 2);
      WeekdayNext(target - 1);
      if target != MinDay {
        assert target - 3 >= MinDay by {
          // ordinals 2 and 3 fall on Tuesday and Wednesday
          assert Weekday(2) == 1 && Weekday(3) == 2;
        }
      }
    } else {
      WeekdayNext(target - 1);
      assert target != MinDay;
    }
  }
}
