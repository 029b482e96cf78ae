/** Maximis.Toolkit.Xrm/BusinessClosureHelper.cs: working-day arithmetic
    against the organization's business closure calendar. A date is a day
    number: day 0 is Monday 1 January 0001, the first day .NET's DateTime
    represents. */
module BusinessClosure {

  datatype DayOfWeek = Sunday | Monday | Tuesday | Wednesday | Thursday | Friday | Saturday

  /** DateTime.DayOfWeek: day 0 is a Monday and the week repeats every seven
      days. */
  function DayOfWeekOf(day: int): DayOfWeek {
    match (day + 1) % 7
    case 0 => Sunday
    case 1 => Monday
    case 2 => Tuesday
    case 3 => Wednesday
    case 4 => Thursday
    case 5 => Friday
    case _ => Saturday
  }

  /** WeekendDays. */
  const WeekendDays: seq<DayOfWeek> := [Saturday, Sunday]

  /** IsWorkingDay(date, closureDates, nonWorkingDays). */
  predicate IsWorkingDayOn(date: int, closureDates: seq<int>, nonWorkingDays: seq<DayOfWeek>) {
    date !in closureDates && DayOfWeekOf(date) !in nonWorkingDays
  }

  /** IsWorkingDay(date, closureDates): the weekend is Saturday and Sunday. */
  predicate IsWorkingDay(date: int, closureDates: seq<int>) {
    IsWorkingDayOn(date, closureDates, WeekendDays)
  }

  /** A day is a working day exactly when it is not a closure date and falls
      from Monday to Friday. */
  lemma WorkingDayIsWeekday(date: int, closureDates: seq<int>)
    ensures IsWorkingDay(date, closureDates) <==>
      date !in closureDates && DayOfWeekOf(date) in {Monday, Tuesday, Wednesday, Thursday, Friday}
  {
  }

  /** Away from closure dates, whether a day is a working day repeats every
      week. */
  lemma WorkingDayOnWeekly(date: int, closureDates: seq<int>, nonWorkingDays: seq<DayOfWeek>)
    requires date !in closureDates && date + 7 !in closureDates
    ensures IsWorkingDayOn(date + 7, closureDates, nonWorkingDays) == IsWorkingDayOn(date, closureDates, nonWorkingDays)
  {
    assert (date + 7 + 1) % 7 == (date + 1) % 7;
  }

  /** More closure dates or more non-working weekdays never add a working
      day. */
  lemma WorkingDayOnMonotone(date: int, closureDates: seq<int>, moreClosureDates: seq<int>,
                             nonWorkingDays: seq<DayOfWeek>, moreNonWorkingDays: seq<DayOfWeek>)
    requires forall d :: d in closureDates ==> d in moreClosureDates
    requires forall w :: w in nonWorkingDays ==> w in moreNonWorkingDays
    ensures IsWorkingDayOn(date, moreClosureDates, moreNonWorkingDays) ==> IsWorkingDayOn(date, closureDates, nonWorkingDays)
  {
  }

  /** The number of working days in the interval (lo, hi]. */
  function CountWorking(lo: int, hi: int, closureDates: seq<int>): nat
    decreases hi - lo
  {
    if hi <= lo then 0
    else CountWorking(lo, hi - 1, closureDates) + (if IsWorkingDay(hi, closureDates) then 1 else 0)
  }

  // ------------------------------------------------------------ Termination

  function MaxDay(days: seq<int>, floor: int): (m: int)
    ensures m >= floor && forall i :: 0 <= i < |days| ==> days[i] <= m
  {
    if days == [] then floor
    else
      var rest := MaxDay(days[1..], floor);
      assert forall i :: 1 <= i < |days| ==> days[i] == days[1..][i - 1];
      if days[0] > rest then days[0] else rest
  }

  function MinDay(days: seq<int>, ceiling: int): (m: int)
    ensures m <= ceiling && forall i :: 0 <= i < |days| ==> m <= days[i]
  {
    if days == [] then ceiling
    else
      var rest := MinDay(days[1..], ceiling);
      assert forall i :: 1 <= i < |days| ==> days[i] == days[1..][i - 1];
      if days[0] < rest then days[0] else rest
  }

  /** How far a forward search from `day` may still run into non-working
      days when no closure date lies after `last`: up to `last`, then at
      most the rest of a weekend. */
  function ForwardSlack(day: int, last: int): nat {
    if day < last then last - day + 3
    else match DayOfWeekOf(day)
      case Friday => 2
      case Saturday => 1
      case _ => 0
  }

  function BackwardSlack(day: int, first: int): nat {
    if day > first then day - first + 3
    else match DayOfWeekOf(day)
      case Monday => 2
      case Sunday => 1
      case _ => 0
  }

  lemma ForwardProgress(day: int, last: int, closureDates: seq<int>)
    requires forall i :: 0 <= i < |closureDates| ==> closureDates[i] <= last
    requires !IsWorkingDay(day + 1, closureDates)
    ensures ForwardSlack(day + 1, last) < ForwardSlack(day, last)
  {
    if day >= last {
      assert day + 1 !in closureDates;
    }
  }

  lemma BackwardProgress(day: int, first: int, closureDates: seq<int>)
    requires forall i :: 0 <= i < |closureDates| ==> first <= closureDates[i]
    requires !IsWorkingDay(day - 1, closureDates)
    ensures BackwardSlack(day - 1, first) < BackwardSlack(day, first)
  {
    if day <= first {
      assert day - 1 !in closureDates;
    }
  }

  // ---------------------------------------------------------- AddWorkingDays

  /** AddWorkingDays: steps a day at a time in the direction of `daysToAdd`,
      counting the working days it lands on, until it has counted
      |daysToAdd| of them. The result is the |daysToAdd|-th working day
      after (or before) `date`; zero days leave the date as it is. */
  method AddWorkingDays(date: int, daysToAdd: int, closureDates: seq<int>) returns (result: int)
    ensures daysToAdd == 0 ==> result == date
    ensures daysToAdd > 0 ==>
      result > date && IsWorkingDay(result, closureDates) && CountWorking(date, result, closureDates) == daysToAdd
    ensures daysToAdd < 0 ==>
      result < date && IsWorkingDay(result, closureDates) && CountWorking(result - 1, date - 1, closureDates) == -daysToAdd
  {
    var addedDays := 0;
    result := date;
    if daysToAdd > 0 {
      ghost var last := MaxDay(closureDates, date);
      while addedDays < daysToAdd
        invariant 0 <= addedDays <= daysToAdd && result >= date
        invariant addedDays == CountWorking(date, result, closureDates)
        invariant addedDays > 0 ==> result > date
        invariant addedDays < daysToAdd || IsWorkingDay(result, closureDates)
        decreases daysToAdd - addedDays, ForwardSlack(result, last)
      {
        if !IsWorkingDay(result + 1, closureDates) {
          ForwardProgress(result, last, closureDates);
        }
        result := result + 1;
        if IsWorkingDay(result, closureDates) {
          addedDays := addedDays + 1;
        }
      }
    } else if daysToAdd < 0 {
      // with no days to add the source's loop does not run either
      ghost var first := MinDay(closureDates, date);
      while addedDays > daysToAdd
        invariant daysToAdd <= addedDays <= 0 && result <= date
        invariant -addedDays == CountWorking(result - 1, date - 1, closureDates)
        invariant addedDays < 0 ==> result < date
        invariant addedDays > daysToAdd || IsWorkingDay(result, closureDates)
        decreases addedDays - daysToAdd, BackwardSlack(result, first)
      {
        if !IsWorkingDay(result - 1, closureDates) {
          BackwardProgress(result, first, closureDates);
        }
        CountWorkingFront(result - 2, date - 1, closureDates);
        result := result - 1;
        if IsWorkingDay(result, closureDates) {
          addedDays := addedDays - 1;
        }
      }
    }
  }

  /** Counting from one day earlier adds that day when it is a working day. */
  lemma {:induction false} CountWorkingFront(lo: int, hi: int, closureDates: seq<int>)
    requires lo < hi
    ensures CountWorking(lo, hi, closureDates)
         == CountWorking(lo + 1, hi, closureDates) + (if IsWorkingDay(lo + 1, closureDates) then 1 else 0)
    decreases hi - lo
  {
    if hi > lo + 1 {
      CountWorkingFront(lo, hi - 1, closureDates);
    } else {
      assert CountWorking(lo, lo, closureDates) == 0;
    }
  }

  /** The working days counted in (lo, hi] split at any day in between. */
  lemma {:induction false} CountWorkingSplit(lo: int, mid: int, hi: int, closureDates: seq<int>)
    requires lo <= mid <= hi
    ensures CountWorking(lo, hi, closureDates) == CountWorking(lo, mid, closureDates) + CountWorking(mid, hi, closureDates)
    decreases hi - mid
  {
    if hi > mid {
      CountWorkingSplit(lo, mid, hi - 1, closureDates);
    }
  }

  /** AddWorkingDays' postcondition pins its result down: two working days
      after `date` with the same number of working days up to them are the
      same day. */
  lemma {:induction false} ForwardResultUnique(date: int, a: int, b: int, closureDates: seq<int>)
    requires a > date && IsWorkingDay(a, closureDates) && b > date && IsWorkingDay(b, closureDates)
    requires CountWorking(date, a, closureDates) == CountWorking(date, b, closureDates)
    ensures a == b
  {
    if a < b {
      CountWorkingSplit(date, a, b, closureDates);
      CountWorkingPositive(a, b, closureDates);
    } else if b < a {
      CountWorkingSplit(date, b, a, closureDates);
      CountWorkingPositive(b, a, closureDates);
    }
  }

  lemma CountWorkingPositive(lo: int, hi: int, closureDates: seq<int>)
    requires lo < hi && IsWorkingDay(hi, closureDates)
    ensures CountWorking(lo, hi, closureDates) > 0
  {
  }

  // ------------------------------------------------- GetBusinessClosureDates

  /** A closure rule of the calendar: the local start day and the duration
      in minutes. */
  datatype CalendarRule = CalendarRule(StartDay: int, Duration: int)

  /** duration / 1440 with C#'s division, which truncates toward zero. */
  function RuleDays(duration: int): int {
    if duration >= 0 then duration / 1440 else -((-duration) / 1440)
  }

  /** `count` consecutive days from `start`. */
  function Run(start: int, count: int): (r: seq<int>)
    ensures |r| == (if count > 0 then count else 0)
    ensures forall i :: 0 <= i < |r| ==> r[i] == start + i
    decreases count
  {
    if count <= 0 then [] else Run(start, count - 1) + [start + count - 1]
  }

  /** The closure dates of all rules, rule by rule. */
  function ClosureDates(rules: seq<CalendarRule>): seq<int> {
    if rules == [] then []
    else ClosureDates(rules[..|rules| - 1]) + Run(rules[|rules| - 1].StartDay, RuleDays(rules[|rules| - 1].Duration))
  }

  /** GetBusinessClosureDates over the calendar's rules. */
  method GetBusinessClosureDates(rules: seq<CalendarRule>) returns (closureDates: seq<int>)
    ensures closureDates == ClosureDates(rules)
  {
    closureDates := [];
    var r := 0;
    while r < |rules|
      invariant 0 <= r <= |rules|
      invariant closureDates == ClosureDates(rules[..r])
    {
      var ruleStartDate := rules[r].StartDay;
      var ruleDays := RuleDays(rules[r].Duration);
      ghost var before := closureDates;
      var i := 0;
      while i < ruleDays
        invariant 0 <= i && (if ruleDays > 0 then i <= ruleDays else i == 0)
        invariant ruleStartDate == rules[r].StartDay + i
        invariant closureDates == before + Run(rules[r].StartDay, i)
      {
        closureDates := closureDates + [ruleStartDate];
        ruleStartDate := ruleStartDate + 1;
        i := i + 1;
      }
      assert Run(rules[r].StartDay, i) == Run(rules[r].StartDay, ruleDays);
      assert rules[..r + 1][..r] == rules[..r] && rules[..r + 1][r] == rules[r];
      r := r + 1;
    }
    assert rules[..r] == rules;
  }

  /** A day is a closure date exactly when some rule's run of whole days
      covers it; a rule shorter than a day covers nothing. */
  lemma {:induction false} ClosureDateCovered(rules: seq<CalendarRule>, day: int)
    ensures day in ClosureDates(rules) <==>
      exists k :: 0 <= k < |rules| && rules[k].StartDay <= day < rules[k].StartDay + RuleDays(rules[k].Duration)
  {
    if rules != [] {
      var init, last := rules[..|rules| - 1], rules[|rules| - 1];
      ClosureDateCovered(init, day);
      var run := Run(last.StartDay, RuleDays(last.Duration));
      assert day in run <==> last.StartDay <= day < last.StartDay + RuleDays(last.Duration) by {
        if last.StartDay <= day < last.StartDay + RuleDays(last.Duration) {
          assert run[day - last.StartDay] == day;
        }
      }
      if exists k :: 0 <= k < |rules| && rules[k].StartDay <= day < rules[k].StartDay + RuleDays(rules[k].Duration) {
        var k :| 0 <= k < |rules| && rules[k].StartDay <= day < rules[k].StartDay + RuleDays(rules[k].Duration);
        if k < |rules| - 1 {
          assert init[k] == rules[k];
        }
      }
      if exists k :: 0 <= k < |init| && init[k].StartDay <= day < init[k].StartDay + RuleDays(init[k].Duration) {
        var k :| 0 <= k < |init| && init[k].StartDay <= day < init[k].StartDay + RuleDays(init[k].Duration);
        assert rules[k] == init[k];
      }
    }
  }

  /** Each rule contributes max(0, duration / 1440) days, so the list is as
      long as the rules' whole days together. */
  function TotalDays(rules: seq<CalendarRule>): nat {
    if rules == [] then 0
    else
      var d := RuleDays(rules[|rules| - 1].Duration);
      TotalDays(rules[..|rules| - 1]) + (if d > 0 then d else 0)
  }

  lemma {:induction false} ClosureDatesLength(rules: seq<CalendarRule>)
    ensures |ClosureDates(rules)| == TotalDays(rules)
  {
    if rules != [] {
      ClosureDatesLength(rules[..|rules| - 1]);
    }
  }
}
