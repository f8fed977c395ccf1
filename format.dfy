/**
 * `formatTimeLeft`: the time until a due date, in milliseconds, shown as
 * "Nd Nh", "Nh Nm" or "Nm", or "Overdue" when the due date has passed.
 */
module Format {
  import opened Text

  const MsPerMinute: nat := 60000
  const MsPerHour: nat := 3600000
  const MsPerDay: nat := 86400000

  /** Which of the four texts is shown, with the numbers it shows. */
  datatype TimeLeft =
    | Overdue
    | DaysHours(days: nat, hours: nat)
    | HoursMinutes(hours: nat, minutes: nat)
    | MinutesOnly(minutes: nat)

  /**
   * The whole days, the hours of the day left over and the minutes of the
   * hour left over; together they account for `ms` to within a minute.
   */
  function Split(ms: nat): (r: (nat, nat, nat))
    ensures r.1 < 24 && r.2 < 60
    ensures r.0 * MsPerDay + r.1 * MsPerHour + r.2 * MsPerMinute <= ms
    ensures ms < r.0 * MsPerDay + r.1 * MsPerHour + r.2 * MsPerMinute + MsPerMinute
  {
    var d := ms / MsPerDay;
    var inDay := ms % MsPerDay;
    var h := inDay / MsPerHour;
    var inHour := ms % MsPerHour;
    var m := inHour / MsPerMinute;
    assert ms == d * MsPerDay + inDay;
    assert inDay == h * MsPerHour + inDay % MsPerHour;
    assert inHour == inDay % MsPerHour by {
      assert ms == (d * 24 + h) * MsPerHour + inDay % MsPerHour;
    }
    assert inHour == m * MsPerMinute + inHour % MsPerMinute;
    (d, h, m)
  }

  function Classify(ms: int): (r: TimeLeft)
    ensures r.Overdue? <==> ms < 0
    ensures r.DaysHours? ==>
      1 <= r.days && r.hours < 24 &&
      r.days * MsPerDay + r.hours * MsPerHour <= ms < r.days * MsPerDay + (r.hours + 1) * MsPerHour
    ensures r.HoursMinutes? ==>
      1 <= r.hours < 24 && r.minutes < 60 &&
      r.hours * MsPerHour + r.minutes * MsPerMinute <= ms < r.hours * MsPerHour + (r.minutes + 1) * MsPerMinute
    ensures r.MinutesOnly? ==>
      r.minutes < 60 && r.minutes * MsPerMinute <= ms < (r.minutes + 1) * MsPerMinute
  {
    if ms < 0 then Overdue
    else
      var (d, h, m) := Split(ms);
      if d > 0 then DaysHours(d, h)
      else if h > 0 then HoursMinutes(h, m)
      else MinutesOnly(m)
  }

  /** The text shows days exactly when at least a full day is left, and then ends in the hours. */
  function FormatTimeLeft(ms: int): (r: string)
    ensures r != []
    ensures ms >= 0 ==> (r[|r| - 1] == 'h' <==> ms >= MsPerDay)
  {
    match Classify(ms)
    case Overdue => "Overdue"
    case DaysHours(d, h) => NatToString(d) + "d " + NatToString(h) + "h"
    case HoursMinutes(h, m) => NatToString(h) + "h " + NatToString(m) + "m"
    case MinutesOnly(m) => NatToString(m) + "m"
  }

  /** The text is "Overdue" exactly for a negative difference; otherwise it starts with a digit. */
  lemma OverdueIffNegative(ms: int)
    ensures FormatTimeLeft(ms) == "Overdue" <==> ms < 0
    ensures ms >= 0 ==> '0' <= FormatTimeLeft(ms)[0] <= '9'
  {
    if ms >= 0 {
      var s := FormatTimeLeft(ms);
      assert '0' <= s[0] <= '9';
    }
  }
}
