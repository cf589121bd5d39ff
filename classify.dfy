/**
  Classifying a deadline against the current time (`getDeadlineStatus`) and
  the remaining-time text of the tooltip (`getTimeRemaining`). Both work on
  the signed difference, in milliseconds, between the deadline and now.
 */
module Classify {
  import opened Text

  const MsPerMinute: int := 60000
  const MsPerHour: int := 3600000
  const MsPerDay: int := 86400000

  /** The colours of the configuration. */
  const UpcomingColor: string := "#00FF00"
  const OverdueColor: string := "#E53935"
  const WarningColor: string := "#FB8C00"
  const BorderColor: string := "#BDBDBD"

  datatype Status = Overdue | Warning | Upcoming

  /** The status word the script puts in class names: `overdue`, `warning`, `upcoming`. */
  function StatusName(s: Status): string {
    match s
    case Overdue => "overdue"
    case Warning => "warning"
    case Upcoming => "upcoming"
  }

  /** The object `getDeadlineStatus` returns: a background colour, the status and a message. */
  datatype StatusInfo = StatusInfo(color: string, status: Status, message: string)

  /** The colour and message configured for each status. */
  function Info(s: Status): StatusInfo {
    match s
    case Overdue => StatusInfo(OverdueColor, Overdue, "Overdue")
    case Warning => StatusInfo(WarningColor, Warning, "Due within 24 hours")
    case Upcoming => StatusInfo(UpcomingColor, Upcoming, "Upcoming")
  }

  /**
    `getDeadlineStatus`: overdue when the deadline has passed, a warning when
    it is at most 24 hours away (exactly 24 hours included), upcoming after
    that. The source compares the hours as a floating-point quotient; the
    quotient is exact here, and the split is the same as on whole milliseconds.
   */
  function GetDeadlineStatus(deadline: int, current: int): (info: StatusInfo)
    ensures info == Info(info.status)
    ensures info.status == Overdue <==> deadline - current < 0
    ensures info.status == Warning <==> 0 <= deadline - current <= MsPerDay
    ensures info.status == Upcoming <==> deadline - current > MsPerDay
  {
    var timeDiff := deadline - current;
    var hoursDiff: real := timeDiff as real / (1000 * 60 * 60) as real;
    if timeDiff < 0 then Info(Overdue)
    else if hoursDiff <= 24.0 then Info(Warning)
    else Info(Upcoming)
  }

  /** The order in which a deadline moves through the statuses as it comes closer. */
  function Rank(s: Status): nat {
    match s
    case Overdue => 0
    case Warning => 1
    case Upcoming => 2
  }

  /** Seen at a later time, a deadline is never in a less urgent status. */
  lemma StatusMonotone(deadline: int, earlier: int, later: int)
    requires earlier <= later
    ensures Rank(GetDeadlineStatus(deadline, later).status) <= Rank(GetDeadlineStatus(deadline, earlier).status)
  {
  }

  /** The remaining time as the tooltip states it: days and hours when overdue, days, hours and minutes otherwise. */
  datatype Remaining = OverdueBy(days: nat, hours: nat) | TimeLeft(days: nat, hours: nat, minutes: nat)

  /** The milliseconds a decomposition accounts for. */
  function Covered(r: Remaining): nat {
    match r
    case OverdueBy(days, hours) => days * MsPerDay + hours * MsPerHour
    case TimeLeft(days, hours, minutes) => days * MsPerDay + hours * MsPerHour + minutes * MsPerMinute
  }

  /** The smallest unit a decomposition shows: the hour when overdue, the minute otherwise. */
  function Unit(r: Remaining): nat {
    if r.OverdueBy? then MsPerHour else MsPerMinute
  }

  /** Hours below 24 and, where shown, minutes below 60. */
  predicate Normal(r: Remaining) {
    r.hours < 24 && (r.TimeLeft? ==> r.minutes < 60)
  }

  /**
    `getTimeRemaining`: the absolute difference cut into whole days, hours
    and (when not overdue) minutes, each by truncation. The operands are never
    negative, so `Math.floor` and JavaScript's `%` agree with Dafny's `/` and `%`.
   */
  function GetTimeRemaining(deadline: int, current: int): (r: Remaining)
    ensures r.OverdueBy? <==> deadline - current < 0
    ensures Normal(r)
    ensures var a := if deadline < current then current - deadline else deadline - current;
      Covered(r) <= a < Covered(r) + Unit(r)
  {
    var timeDiff := deadline - current;
    if timeDiff < 0 then
      var overdue := -timeDiff;
      Truncation(overdue);
      OverdueBy(overdue / MsPerDay, (overdue % MsPerDay) / MsPerHour)
    else
      Truncation(timeDiff);
      TimeLeft(timeDiff / MsPerDay, (timeDiff % MsPerDay) / MsPerHour, (timeDiff % MsPerHour) / MsPerMinute)
  }

  /** Whole days, then whole hours of the rest, then whole minutes of the rest, fall short of `a` by less than one unit. */
  lemma Truncation(a: nat)
    ensures (a % MsPerDay) / MsPerHour < 24 && (a % MsPerHour) / MsPerMinute < 60
    ensures var covered := a / MsPerDay * MsPerDay + (a % MsPerDay) / MsPerHour * MsPerHour;
      && covered <= a < covered + MsPerHour
      && covered + (a % MsPerHour) / MsPerMinute * MsPerMinute <= a
      && a < covered + (a % MsPerHour) / MsPerMinute * MsPerMinute + MsPerMinute
  {
    var d, rd := a / MsPerDay, a % MsPerDay;
    assert a == d * MsPerDay + rd;
    var h, rh := rd / MsPerHour, rd % MsPerHour;
    assert rd == h * MsPerHour + rh;
    assert a % MsPerHour == rh by {
      assert a == (d * 24 + h) * MsPerHour + rh;
    }
    var m, rm := rh / MsPerMinute, rh % MsPerMinute;
    assert rh == m * MsPerMinute + rm;
  }

  /**
    The decomposition is the only one of its shape that is normal and within
    one unit of the difference: any other reading of the same difference
    would show different numbers.
   */
  lemma RemainingUnique(deadline: int, current: int, other: Remaining)
    requires other.OverdueBy? <==> deadline - current < 0
    requires Normal(other)
    requires var a := if deadline < current then current - deadline else deadline - current;
      Covered(other) <= a < Covered(other) + Unit(other)
    ensures other == GetTimeRemaining(deadline, current)
  {
    var a := if deadline < current then current - deadline else deadline - current;
    var r := GetTimeRemaining(deadline, current);
    var below := other.hours * MsPerHour + (if other.TimeLeft? then other.minutes * MsPerMinute else 0);
    assert below < MsPerDay;
    assert other.days * MsPerDay <= a < (other.days + 1) * MsPerDay;
    assert other.days == a / MsPerDay;
    assert other.hours * MsPerHour <= a % MsPerDay < (other.hours + 1) * MsPerHour;
    assert other.hours == (a % MsPerDay) / MsPerHour;
    if other.TimeLeft? {
      assert a % MsPerHour == a % MsPerDay - other.hours * MsPerHour;
      assert other.minutes == (a % MsPerHour) / MsPerMinute;
    }
  }

  /** The status and the remaining time agree on whether the deadline has passed. */
  lemma StatusAgreesWithRemaining(deadline: int, current: int)
    ensures GetDeadlineStatus(deadline, current).status == Overdue <==> GetTimeRemaining(deadline, current).OverdueBy?
  {
  }

  /** The tooltip line: `Overdue by: <d>d <h>h` or `Time remaining: <d>d <h>h <m>m`. */
  function RemainingText(r: Remaining): string {
    match r
    case OverdueBy(days, hours) => "Overdue by: " + Decimal(days) + "d " + Decimal(hours) + "h"
    case TimeLeft(days, hours, minutes) =>
      "Time remaining: " + Decimal(days) + "d " + Decimal(hours) + "h " + Decimal(minutes) + "m"
  }

  /** The overdue line has no minutes field: it ends in the hours, and no `m` unit appears in it. */
  lemma OverdueTextHasNoMinutes(days: nat, hours: nat)
    ensures var t := RemainingText(OverdueBy(days, hours));
      t[..12] == "Overdue by: " && t[|t| - 1] == 'h' && 'm' !in t
  {
    var d, h := Decimal(days), Decimal(hours);
    assert 'm' !in d && 'm' !in h by {
      assert forall k :: 0 <= k < |d| ==> IsDigit(d[k]);
      assert forall k :: 0 <= k < |h| ==> IsDigit(h[k]);
    }
    assert 'm' !in "Overdue by: " && 'm' !in "d " && 'm' !in "h";
  }
}
