/** The older period class of the web app: a plain copy of the API's period
    with the same hour format, hours comparison and day names as the newer
    one, which serves here as its reference. */
module LegacyPeriod {
  import opened Common
  import opened WeekDays
  import ClientPeriod

  /** The older period; its id is always a stored id. */
  datatype Period = Period(
    periodId: int,
    startDay: string, startHour: int, startMinutes: int,
    endDay: string, endHour: int, endMinutes: int)

  /** The newer period with the same fields. */
  function AsClient(p: Period): (r: ClientPeriod.Period)
    ensures r.periodId == ClientPeriod.Known(p.periodId)
  {
    ClientPeriod.Period(ClientPeriod.Known(p.periodId), p.startDay, p.startHour, p.startMinutes,
                        p.endDay, p.endHour, p.endMinutes)
  }

  /** The constructor copies the seven fields of the object it is given. */
  function FromObject(o: ClientPeriod.Period, id: int): (r: Period)
    requires o.periodId == ClientPeriod.Known(id)
    ensures AsClient(r) == o
  {
    Period(id, o.startDay, o.startHour, o.startMinutes, o.endDay, o.endHour, o.endMinutes)
  }

  /** `hasSameHoursAs`: the four hour and minute fields agree. */
  function HasSameHoursAs(p: Period, q: Period): (r: bool)
    ensures r <==> ClientPeriod.SameHours(AsClient(p), AsClient(q))
  {
    p.startHour == q.startHour && p.startMinutes == q.startMinutes
    && p.endHour == q.endHour && p.endMinutes == q.endMinutes
  }

  /** `formatHour`, written out again in this file; for a valid time its text
      reads back as that time. */
  function FormatHour(hour: int, minutes: int): (r: string)
    ensures r == ClientPeriod.FormatHour(hour, minutes)
    ensures 0 <= hour < 24 && 0 <= minutes < 60 ==> ClientPeriod.ReadHour(r) == Some((hour, minutes))
  {
    var isPm := hour > 12;
    var h := if isPm then hour - 12 else hour;
    var minutesStr := if minutes != 0 then ":" + IntToString(minutes) else "";
    var r := IntToString(h) + minutesStr + (if isPm then "pm" else "am");
    if 0 <= hour < 24 && 0 <= minutes < 60 then
      ClientPeriod.FormatHourRoundTrip(hour, minutes);
      r
    else r
  }

  /** `startDayStr`: the English name of the start day, `undefined` when the
      code is unknown; two known codes never share a name. */
  function StartDayStr(p: Period): (r: Option<string>)
    ensures r.Some? <==> IsDayCode(p.startDay)
    ensures forall day: string :: r.Some? && r == ClientPeriod.DayName(day) ==> day == p.startDay
  {
    NamesDistinct();
    ClientPeriod.DayName(p.startDay)
  }

  /** `endDayStr`, the same lookup for the end day. */
  function EndDayStr(p: Period): (r: Option<string>)
    ensures r.Some? <==> IsDayCode(p.endDay)
    ensures r == StartDayStr(p.(startDay := p.endDay))
  {
    ClientPeriod.DayName(p.endDay)
  }

  lemma NamesDistinct()
    ensures forall a: string, b: string :: ClientPeriod.DayName(a).Some? && ClientPeriod.DayName(a) == ClientPeriod.DayName(b) ==> a == b
  {
    forall a: string, b: string | ClientPeriod.DayName(a).Some? && ClientPeriod.DayName(a) == ClientPeriod.DayName(b)
      ensures a == b
    {
      ClientPeriod.DayNamesDistinct(a, b);
    }
  }
}
