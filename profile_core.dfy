/**
 * The computations of the profile page (`ProfileManager`): statistics over a user's test results, the duration
 * and relative-time texts, and the selection of recent activity. The page's DOM work is not modelled.
 */
module ProfileCore {
  import opened Wrappers
  import opened Seqs
  import opened Text
  import opened AuthCore

  datatype Statistics = Statistics(testsCompleted: int, totalTime: int, achievementsCount: int)

  /** `getTestHistory()` of the profile page: the stored results of the logged-in user, in stored order. */
  function CurrentUserHistory(results: seq<TestResult>, current: User): (r: seq<TestResult>)
    ensures forall t :: t in r <==> t in results && t.userId == current.id
  {
    TestHistory(results, current.id)
  }

  /** Filtering by user keeps stored order: the history of a concatenation is the concatenation of histories. */
  lemma TestHistoryKeepsOrder(a: seq<TestResult>, b: seq<TestResult>, userId: string)
    ensures TestHistory(a + b, userId) == TestHistory(a, userId) + TestHistory(b, userId)
  {
    FilterConcat((t: TestResult) => t.userId == userId, a, b);
  }

  /** No record with a negative time spent. */
  predicate NonNegativeTimes(h: seq<TestResult>) {
    forall i :: 0 <= i < |h| ==> TimeOrZero(h[i].timeSpent) >= 0
  }

  /** The `reduce` over a history: the running total of time spent, from the first record on; no negative time
      spent gives no negative total. */
  function TotalTime(h: seq<TestResult>): (r: int)
    ensures NonNegativeTimes(h) ==> r >= 0
    decreases |h|
  {
    if |h| == 0 then 0
    else
      assert NonNegativeTimes(h) ==> NonNegativeTimes(h[..|h| - 1]);
      TotalTime(h[..|h| - 1]) + TimeOrZero(h[|h| - 1].timeSpent)
  }

  /** The total time of a concatenation is the sum of the totals. */
  lemma {:induction false} TotalTimeConcat(a: seq<TestResult>, b: seq<TestResult>)
    ensures TotalTime(a + b) == TotalTime(a) + TotalTime(b)
    decreases |b|
  {
    if |b| != 0 {
      TotalTimeConcat(a, b[..|b| - 1]);
      assert (a + b)[..|a + b| - 1] == a + b[..|b| - 1];
      assert (a + b)[|a + b| - 1] == b[|b| - 1];
    } else {
      assert a + b == a;
    }
  }

  /** The numbers of completed tests that earn an achievement. */
  const AchievementThresholds: seq<int> := [1, 5, 10]

  /** The achievement labels earned by a number of completed tests, in the order the page lists them. */
  function Achievements(testsCompleted: int): (r: seq<string>)
    ensures |r| == |Filter((t: int) => t <= testsCompleted, AchievementThresholds)|
    ensures |r| <= 3
  {
    var earned := (if testsCompleted >= 1 then ["Первый тест"] else [])
      + (if testsCompleted >= 5 then ["Опытный тестируемый"] else [])
      + (if testsCompleted >= 10 then ["Мастер тестов"] else []);
    ghost var p := (t: int) => t <= testsCompleted;
    assert Filter(p, AchievementThresholds[2..]) == if p(10) then [10] else [];
    assert Filter(p, AchievementThresholds[1..]) == (if p(5) then [5] else []) + Filter(p, AchievementThresholds[2..]);
    earned
  }

  /** Achievements are never lost: the labels earned by fewer tests are a prefix of those earned by more. */
  lemma AchievementsMonotone(m: int, n: int)
    requires m <= n
    ensures Achievements(m) <= Achievements(n)
  {
  }

  /** `calculateStatistics(testHistory)`. */
  function CalculateStatistics(h: seq<TestResult>): (r: Statistics)
    ensures r.testsCompleted == |h|
    ensures r.achievementsCount == |Achievements(|h|)| && 0 <= r.achievementsCount <= 3
    ensures r.totalTime == TotalTime(h)
    ensures NonNegativeTimes(h) ==> r.totalTime >= 0
  {
    Statistics(|h|, TotalTime(h), |Achievements(|h|)|)
  }

  /** The statistics of a history one result longer: one more test, its time added, achievements not fewer. */
  lemma StatisticsAfterOneMore(h: seq<TestResult>, t: TestResult)
    ensures CalculateStatistics(h + [t]).testsCompleted == CalculateStatistics(h).testsCompleted + 1
    ensures CalculateStatistics(h + [t]).totalTime == CalculateStatistics(h).totalTime + TimeOrZero(t.timeSpent)
    ensures CalculateStatistics(h + [t]).achievementsCount >= CalculateStatistics(h).achievementsCount
  {
    assert (h + [t])[..|h|] == h;
    AchievementsMonotone(|h|, |h| + 1);
  }

  // ---------------------------------------------------------------------------------------------
  // Durations

  /** JavaScript's `%`: the remainder takes the sign of the dividend. */
  function JsRemainder(a: int, b: int): (r: int)
    requires b > 0
    ensures a >= 0 ==> r == a % b
    ensures -b < r < b
    ensures (a - r) % b == 0
    ensures a >= 0 ==> r >= 0
    ensures a <= 0 ==> r <= 0
  {
    var magnitude := if a >= 0 then a else -a;
    var q := magnitude / b;
    var rem := magnitude % b;
    assert magnitude == b * q + rem;
    var r := if a >= 0 then rem else -rem;
    assert a - r == b * (if a >= 0 then q else -q);
    MultipleRemainder(b, if a >= 0 then q else -q);
    r
  }

  /** A positive multiple of a positive number is at least that number. */
  lemma {:induction false} MulAtLeast(b: int, d: int)
    requires b > 0 && d >= 1
    ensures b * d >= b
    decreases d
  {
    if d > 1 {
      MulAtLeast(b, d - 1);
    }
  }

  /** A multiple of `b` leaves no remainder. */
  lemma MultipleRemainder(b: int, k: int)
    requires b > 0
    ensures (b * k) % b == 0
  {
    var q, rem := (b * k) / b, (b * k) % b;
    var d := k - q;
    assert b * d == rem;
    if d >= 1 {
      MulAtLeast(b, d);
    } else if d <= -1 {
      MulAtLeast(b, -d);
    }
  }

  /** The hours and minutes `formatTime` shows: `Math.floor(seconds / 3600)` and
      `Math.floor((seconds % 3600) / 60)`. */
  function TimeParts(seconds: int): (parts: (int, int))
    ensures seconds >= 0 ==> parts.0 >= 0 && 0 <= parts.1 <= 59
    ensures seconds >= 0 ==> parts.0 * 3600 + parts.1 * 60 <= seconds < parts.0 * 3600 + parts.1 * 60 + 60
    ensures parts.0 > 0 <==> seconds >= 3600
  {
    (seconds / 3600, JsRemainder(seconds, 3600) / 60)
  }

  /** The mark that follows the hours in a `formatTime` text. */
  predicate IsHourMark(c: char) {
    c == 'ч'
  }

  /** Reads the hours and minutes back from a text in the form `formatTime` writes. */
  function ParseTime(t: string): Option<(int, int)> {
    if |t| == 0 || t[|t| - 1] != 'м' then None
    else
      var body := t[..|t| - 1];
      var k := FirstIndex(IsHourMark, body);
      if k < 0 then
        match ParseNat(body)
        case Some(m) => Some((0, m))
        case None => None
      else if k + 1 < |body| && body[k + 1] == ' ' then
        match (ParseNat(body[..k]), ParseNat(body[k + 2..]))
        case (Some(h), Some(m)) => Some((h, m))
        case _ => None
      else None
  }

  /** A text "<h>ч <m>м" with decimal numbers `h` and `m` reads back as those numbers. */
  lemma ParseHoursAndMinutes(h: string, m: string)
    requires |h| > 0 && forall i :: 0 <= i < |h| ==> IsDigit(h[i])
    requires |m| > 0 && forall i :: 0 <= i < |m| ==> IsDigit(m[i])
    ensures ParseTime(h + "ч " + m + "м") == Some((DigitsValue(h), DigitsValue(m)))
  {
    var t := h + "ч " + m + "м";
    var body := h + "ч " + m;
    assert t[..|t| - 1] == body;
    HourMarkAfterDigits(h, m);
    assert body[|h| + 1] == ' ';
    assert body[..|h|] == h;
    assert body[|h| + 2..] == m;
  }

  /** In "<h>ч <m>" with decimal digits `h`, the first hour mark is the one right after `h`. */
  lemma HourMarkAfterDigits(h: string, m: string)
    requires forall i :: 0 <= i < |h| ==> IsDigit(h[i])
    ensures FirstIndex(IsHourMark, h + "ч " + m) == |h|
  {
    var body := h + "ч " + m;
    assert IsHourMark(body[|h|]);
    assert forall i :: 0 <= i < |h| ==> body[i] == h[i] && !IsHourMark(body[i]);
  }

  /** A text "<m>м" with a decimal number `m` reads back as no hours and `m` minutes. */
  lemma ParseMinutesOnly(m: string)
    requires |m| > 0 && forall i :: 0 <= i < |m| ==> IsDigit(m[i])
    ensures ParseTime(m + "м") == Some((0, DigitsValue(m)))
  {
    var t := m + "м";
    assert t[..|t| - 1] == m;
    assert forall i :: 0 <= i < |m| ==> m[i] != 'ч';
  }

  /** The text `formatTime` writes for a number of hours and minutes: "<h>ч <m>м" when there are whole hours,
      otherwise "<m>м". */
  function TimeText(hours: int, minutes: int): string {
    if hours > 0 then IntToString(hours) + "ч " + IntToString(minutes) + "м" else IntToString(minutes) + "м"
  }

  /** The text for non-negative hours and minutes reads back as them, and has the hours mark exactly when there
      are whole hours. */
  lemma TimeTextRoundTrip(hours: int, minutes: int)
    requires hours >= 0 && minutes >= 0
    ensures ParseTime(TimeText(hours, minutes)) == Some((hours, minutes))
    ensures 'ч' in TimeText(hours, minutes) <==> hours > 0
  {
    var m := NatToString(minutes);
    ParseNatToString(minutes);
    assert IntToString(minutes) == m;
    if hours > 0 {
      var h := NatToString(hours);
      ParseNatToString(hours);
      assert IntToString(hours) == h;
      assert TimeText(hours, minutes) == h + "ч " + m + "м";
      ParseHoursAndMinutes(h, m);
      assert TimeText(hours, minutes)[|h|] == 'ч';
    } else {
      assert TimeText(hours, minutes) == m + "м";
      ParseMinutesOnly(m);
      var t := m + "м";
      forall i | 0 <= i < |t| ensures t[i] != 'ч' {
        if i < |m| {
          assert IsDigit(m[i]);
        }
      }
    }
  }

  /** `formatTime(seconds)`. For a non-negative duration the text is the whole minutes under an hour, and the
      whole hours and the minutes left over from one hour on; it reads back as its hours and minutes, and it
      shows the hours part exactly from one hour on. */
  function FormatTime(seconds: int): (r: string)
    ensures 0 <= seconds < 3600 ==> r == NatToString(seconds / 60) + "м"
    ensures seconds >= 3600 ==> r == NatToString(seconds / 3600) + "ч " + NatToString(seconds % 3600 / 60) + "м"
    ensures seconds >= 0 ==> ParseTime(r) == Some(TimeParts(seconds))
    ensures seconds >= 0 ==> ('ч' in r <==> seconds >= 3600)
  {
    var (hours, minutes) := TimeParts(seconds);
    if seconds >= 0 then TimeTextRoundTrip(hours, minutes); TimeText(hours, minutes) else TimeText(hours, minutes)
  }

  // ---------------------------------------------------------------------------------------------
  // Relative times

  /** Which text `formatRelativeTime` picks, with the number it shows. */
  datatype RelativeTime = JustNow | MinutesAgo(minutes: int) | HoursAgo(hours: int) | DaysAgo(days: int) | OnDate

  const MsPerMinute := 60000
  const MsPerHour := 3600000
  const MsPerDay := 86400000
  const MsPerWeek := 604800000

  /** Flooring whole minutes to hours is flooring the milliseconds to hours, and likewise hours to days. */
  lemma NestedFloors(diffMs: int)
    ensures (diffMs / MsPerMinute) / 60 == diffMs / MsPerHour
    ensures ((diffMs / MsPerMinute) / 60) / 24 == diffMs / MsPerDay
  {
    var mins := diffMs / MsPerMinute;
    var hours := mins / 60;
    var days := hours / 24;
    assert diffMs == MsPerHour * hours + (MsPerMinute * (mins % 60) + diffMs % MsPerMinute);
    assert diffMs == MsPerDay * days + (MsPerHour * (hours % 24) + MsPerMinute * (mins % 60) + diffMs % MsPerMinute);
  }

  /** The branch `formatRelativeTime` takes for a date `diffMs` milliseconds in the past. */
  function RelativeBucket(diffMs: int): (r: RelativeTime)
    ensures r == JustNow <==> diffMs < MsPerMinute
    ensures r.MinutesAgo? <==> MsPerMinute <= diffMs < MsPerHour
    ensures r.HoursAgo? <==> MsPerHour <= diffMs < MsPerDay
    ensures r.DaysAgo? <==> MsPerDay <= diffMs < MsPerWeek
    ensures r == OnDate <==> MsPerWeek <= diffMs
    ensures r.MinutesAgo? ==> r.minutes == diffMs / MsPerMinute && 1 <= r.minutes <= 59
    ensures r.HoursAgo? ==> r.hours == diffMs / MsPerHour && 1 <= r.hours <= 23
    ensures r.DaysAgo? ==> r.days == diffMs / MsPerDay && 1 <= r.days <= 6
  {
    var diffMins := diffMs / MsPerMinute;
    var diffHours := diffMins / 60;
    var diffDays := diffHours / 24;
    NestedFloors(diffMs);
    if diffMins < 1 then JustNow
    else if diffMins < 60 then MinutesAgo(diffMins)
    else if diffHours < 24 then HoursAgo(diffHours)
    else if diffDays < 7 then DaysAgo(diffDays)
    else OnDate
  }

  /** `formatRelativeTime`: the text for each branch; `dateText` is the localised date of the last branch. The
      number shown is the elapsed time floored to whole minutes, hours or days. */
  function FormatRelativeTime(diffMs: int, dateText: string): (r: string)
    ensures diffMs < MsPerMinute ==> r == "только что"
    ensures MsPerMinute <= diffMs < MsPerHour ==> r == NatToString(diffMs / MsPerMinute) + " мин назад"
    ensures MsPerHour <= diffMs < MsPerDay ==> r == NatToString(diffMs / MsPerHour) + " ч назад"
    ensures MsPerDay <= diffMs < MsPerWeek ==> r == NatToString(diffMs / MsPerDay) + " д назад"
    ensures MsPerWeek <= diffMs ==> r == dateText
  {
    match RelativeBucket(diffMs)
    case JustNow => "только что"
    case MinutesAgo(m) => IntToString(m) + " мин назад"
    case HoursAgo(h) => IntToString(h) + " ч назад"
    case DaysAgo(d) => IntToString(d) + " д назад"
    case OnDate => dateText
  }

  // ---------------------------------------------------------------------------------------------
  // Recent activity

  /** `testHistory.slice(0, 5).reverse()`: the first five results, last of them first. */
  function RecentTests(h: seq<TestResult>): (r: seq<TestResult>)
    ensures |r| == Min(5, |h|)
    ensures forall i :: 0 <= i < |r| ==> r[i] == h[|r| - 1 - i]
    ensures multiset(r) == multiset(h[..|r|])
  {
    var first := Take(5, h);
    ReversePermutes(first);
    Reverse(first)
  }
}
