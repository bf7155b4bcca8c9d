/** A stored opening period of an item: a start and an end, each a week day,
    an hour and minutes. Only the setters check ranges. */
module ApiPeriods {
  import opened Common
  import opened WeekDays
  import opened ApiInterface

  const HttpBadRequest := 400

  datatype Period = Period(
    periodId: int,
    startDay: WeekDay, startHour: int, startMinutes: int,
    endDay: WeekDay, endHour: int, endMinutes: int,
    itemId: int)

  datatype PeriodError =
    | InvalidHour(status: int, hour: int)
    | InvalidMinutes(status: int, minutes: int)

  predicate IsHour(h: int) { 0 <= h <= 23 }
  predicate IsMinutes(m: int) { 0 <= m <= 59 }

  /** A period whose four time fields are all in range. */
  predicate IsValid(p: Period)
  {
    IsHour(p.startHour) && IsMinutes(p.startMinutes) && IsHour(p.endHour) && IsMinutes(p.endMinutes)
  }

  // A setter that fails returns the error and no period: the caller keeps the
  // period it had, since the source throws before assigning.

  function SetStartHour(p: Period, h: int): (r: Result<Period, PeriodError>)
    ensures r.Ok? <==> IsHour(h)
    ensures r.Ok? ==> r.value.startHour == h && r.value == p.(startHour := r.value.startHour)
    ensures r.Err? ==> r.error == InvalidHour(HttpBadRequest, h)
  {
    if h < 0 || h > 23 then Err(InvalidHour(HttpBadRequest, h)) else Ok(p.(startHour := h))
  }

  function SetStartMinutes(p: Period, m: int): (r: Result<Period, PeriodError>)
    ensures r.Ok? <==> IsMinutes(m)
    ensures r.Ok? ==> r.value.startMinutes == m && r.value == p.(startMinutes := r.value.startMinutes)
    ensures r.Err? ==> r.error == InvalidMinutes(HttpBadRequest, m)
  {
    if m < 0 || m > 59 then Err(InvalidMinutes(HttpBadRequest, m)) else Ok(p.(startMinutes := m))
  }

  function SetEndHour(p: Period, h: int): (r: Result<Period, PeriodError>)
    ensures r.Ok? <==> IsHour(h)
    ensures r.Ok? ==> r.value.endHour == h && r.value == p.(endHour := r.value.endHour)
    ensures r.Err? ==> r.error == InvalidHour(HttpBadRequest, h)
  {
    if h < 0 || h > 23 then Err(InvalidHour(HttpBadRequest, h)) else Ok(p.(endHour := h))
  }

  function SetEndMinutes(p: Period, m: int): (r: Result<Period, PeriodError>)
    ensures r.Ok? <==> IsMinutes(m)
    ensures r.Ok? ==> r.value.endMinutes == m && r.value == p.(endMinutes := r.value.endMinutes)
    ensures r.Err? ==> r.error == InvalidMinutes(HttpBadRequest, m)
  {
    if m < 0 || m > 59 then Err(InvalidMinutes(HttpBadRequest, m)) else Ok(p.(endMinutes := m))
  }

  /** The day setters assign without any check. */
  function SetStartDay(p: Period, d: WeekDay): (r: Period)
    ensures r.startDay == d && r == p.(startDay := r.startDay)
  {
    p.(startDay := d)
  }

  function SetEndDay(p: Period, d: WeekDay): (r: Period)
    ensures r.endDay == d && r == p.(endDay := r.endDay)
  {
    p.(endDay := d)
  }

  /** A setter that succeeds keeps a valid period valid. */
  lemma SettersKeepValid(p: Period, h: int, m: int)
    requires IsValid(p)
    ensures SetStartHour(p, h).Ok? ==> IsValid(SetStartHour(p, h).value)
    ensures SetStartMinutes(p, m).Ok? ==> IsValid(SetStartMinutes(p, m).value)
    ensures SetEndHour(p, h).Ok? ==> IsValid(SetEndHour(p, h).value)
    ensures SetEndMinutes(p, m).Ok? ==> IsValid(SetEndMinutes(p, m).value)
  {
  }

  /** The boundary values of the unit tests. */
  lemma SetterBounds(p: Period)
    ensures SetStartHour(p, 0).Ok? && SetStartHour(p, 23).Ok?
    ensures SetStartHour(p, -1).Err? && SetStartHour(p, 24).Err?
    ensures SetEndMinutes(p, 0).Ok? && SetEndMinutes(p, 59).Ok?
    ensures SetEndMinutes(p, -1).Err? && SetEndMinutes(p, 60).Err?
  {
  }

  // ---------------------------------------------------------------------------
  // toMap
  // ---------------------------------------------------------------------------

  /** A value of the exported map: a number or a week day. */
  datatype FieldValue = VInt(n: int) | VDay(day: WeekDay)

  const MapKeys: seq<string> :=
    [PeriodId, PeriodStartDay, PeriodStartHour, PeriodStartMinutes, PeriodEndDay, PeriodEndHour, PeriodEndMinutes]

  /** `toMap`: the seven period fields under their interface names, in order. */
  function ToMap(p: Period): (r: seq<(string, FieldValue)>)
    ensures |r| == |MapKeys| && forall i | 0 <= i < |r| :: r[i].0 == MapKeys[i]
    ensures forall i | 0 <= i < |r| :: r[i].0 != ItemId
  {
    [ (PeriodId, VInt(p.periodId)),
      (PeriodStartDay, VDay(p.startDay)),
      (PeriodStartHour, VInt(p.startHour)),
      (PeriodStartMinutes, VInt(p.startMinutes)),
      (PeriodEndDay, VDay(p.endDay)),
      (PeriodEndHour, VInt(p.endHour)),
      (PeriodEndMinutes, VInt(p.endMinutes)) ]
  }

  /** Reads a period back from an exported map; the item id comes from elsewhere. */
  function FromMap(m: seq<(string, FieldValue)>, itemId: int): Option<Period>
  {
    if |m| == 7 && (forall i | 0 <= i < 7 :: m[i].0 == MapKeys[i])
       && m[0].1.VInt? && m[1].1.VDay? && m[2].1.VInt? && m[3].1.VInt?
       && m[4].1.VDay? && m[5].1.VInt? && m[6].1.VInt?
    then Some(Period(m[0].1.n, m[1].1.day, m[2].1.n, m[3].1.n, m[4].1.day, m[5].1.n, m[6].1.n, itemId))
    else None
  }

  /** The map loses nothing but the item id. */
  lemma FromMapToMap(p: Period)
    ensures FromMap(ToMap(p), p.itemId) == Some(p)
  {
  }

  /** Two periods with the same map differ at most in their item. */
  lemma ToMapInjective(p: Period, q: Period)
    requires ToMap(p) == ToMap(q)
    ensures p.(itemId := q.itemId) == q
  {
    FromMapToMap(p);
    FromMapToMap(q);
  }
}
