/** The opening periods as the web app holds them: minute-of-week arithmetic,
    the wrap-around containment and overlap tests, the day that continues a
    period, the hour format, and the grouping of consecutive same-hours
    periods into display lines. */
module ClientPeriod {
  import opened Common
  import opened WeekDays

  const MinutesPerDay: int := 1440
  const MinutesPerWeek: int := 10080
  /** The modulus the overlap test uses as written: `(7 * 24 + 23) * 60 + 59`. */
  const AsWrittenModulus: int := 11519

  /** A period's id: a stored id, or `'new'` for one not saved yet. */
  datatype PeriodRef = Known(id: int) | Fresh

  /** A period as the API sends it; days are the three-letter codes. */
  datatype Period = Period(
    periodId: PeriodRef,
    startDay: string, startHour: int, startMinutes: int,
    endDay: string, endHour: int, endMinutes: int)

  datatype ClientError = InvalidDay(day: string)

  /** Known day codes and in-range hours and minutes. */
  predicate IsValid(p: Period)
  {
    && IsDayCode(p.startDay) && IsDayCode(p.endDay)
    && 0 <= p.startHour < 24 && 0 <= p.startMinutes < 60
    && 0 <= p.endHour < 24 && 0 <= p.endMinutes < 60
  }

  // ---------------------------------------------------------------------------
  // Days
  // ---------------------------------------------------------------------------

  /** `PERIOD_DAYS.indexOf(day)`: the position of the code, -1 when unknown. */
  function DayIndex(day: string): (r: int)
    ensures -1 <= r < 7
    ensures r == -1 <==> !IsDayCode(day)
    ensures r >= 0 ==> DayAt(r).Val() == day
  {
    match ForStr(day)
    case Ok(d) => DayAtIndex(d); d.Index()
    case Err(_) => -1
  }

  /** The code at a position is found at that position. */
  lemma DayIndexOfDayAt(i: nat)
    requires i < 7
    ensures DayIndex(DayAt(i).Val()) == i
  {
    ForStrOfVal(DayAt(i));
  }

  /** Two known codes at the same position are the same code. */
  lemma DayIndexInjective(a: string, b: string)
    requires IsDayCode(a) && DayIndex(a) == DayIndex(b)
    ensures a == b
  {
  }

  /** Static `nextDay`: the following code in mon..sun, Sunday wrapping to
      Monday; an unknown code is an error. */
  function NextDayOf(day: string): (r: Result<string, ClientError>)
    ensures r.Ok? <==> IsDayCode(day)
    ensures r.Ok? ==> IsDayCode(r.value) && DayIndex(r.value) == (DayIndex(day) + 1) % 7
    ensures r.Err? ==> r.error == InvalidDay(day)
  {
    var i := DayIndex(day);
    if i >= 0 then
      var next := DayAt((i + 1) % 7);
      DayIndexOfDayAt((i + 1) % 7);
      ForStrOfVal(next);
      Ok(next.Val())
    else Err(InvalidDay(day))
  }

  /** Different days have different successors. */
  lemma NextDayInjective(a: string, b: string)
    requires IsDayCode(a) && IsDayCode(b) && NextDayOf(a) == NextDayOf(b)
    ensures a == b
  {
    DayIndexInjective(a, b);
  }

  /** Sunday's successor is Monday. */
  lemma SundayWraps()
    ensures NextDayOf(Sun.Val()) == Ok(Mon.Val())
  {
    DayIndexOfDayAt(6);
    assert DayAt(0) == Mon;
  }

  /** `PERIOD_DAYS_STRS[day]`: the English name; `undefined` for an unknown code. */
  function DayName(day: string): (r: Option<string>)
    ensures r.Some? <==> IsDayCode(day)
    ensures r.Some? ==> IsDayName(r.value)
  {
    match ForStr(day)
    case Ok(d) => Some(Name(d))
    case Err(_) => None
  }

  function Name(d: WeekDay): string
  {
    match d
    case Mon => "Monday"
    case Tue => "Tuesday"
    case Wed => "Wednesday"
    case Thu => "Thursday"
    case Fri => "Friday"
    case Sat => "Saturday"
    case Sun => "Sunday"
  }

  /** The English name of some day. */
  predicate IsDayName(name: string)
  {
    exists d: WeekDay :: Name(d) == name
  }

  /** Every known code has a name and no two codes share one. */
  lemma DayNamesDistinct(a: string, b: string)
    requires DayName(a).Some? && DayName(a) == DayName(b)
    ensures a == b
  {
    var da := ForStr(a).value;
    var db := ForStr(b).value;
    assert Name(da) == Name(db);
  }

  // ---------------------------------------------------------------------------
  // Minute of the week
  // ---------------------------------------------------------------------------

  /** Minutes from Monday 00:00 to the given day, hour and minutes. */
  function MinuteOfWeek(day: string, hour: int, minutes: int): int
  {
    (DayIndex(day) * 24 + hour) * 60 + minutes
  }

  function StartMinute(p: Period): int
  {
    MinuteOfWeek(p.startDay, p.startHour, p.startMinutes)
  }

  function EndMinute(p: Period): int
  {
    MinuteOfWeek(p.endDay, p.endHour, p.endMinutes)
  }

  /** For valid fields the minute lies in the week, and day, hour and minutes
      can be read back from it. */
  lemma MinuteOfWeekBounds(day: string, hour: int, minutes: int)
    requires IsDayCode(day) && 0 <= hour < 24 && 0 <= minutes < 60
    ensures var w := MinuteOfWeek(day, hour, minutes);
      && 0 <= w < MinutesPerWeek
      && w / MinutesPerDay == DayIndex(day)
      && (w % MinutesPerDay) / 60 == hour
      && w % 60 == minutes
  {
    var i := DayIndex(day);
    var w := MinuteOfWeek(day, hour, minutes);
    assert w == i * 1440 + hour * 60 + minutes;
    assert 0 <= hour * 60 + minutes < 1440;
    assert w / 1440 == i;
    assert w % 1440 == hour * 60 + minutes;
    assert w % 60 == minutes;
  }

  // ---------------------------------------------------------------------------
  // Containment
  // ---------------------------------------------------------------------------

  /** `containsTime` once the clock is read: inclusive when the period does
      not cross the end of the week, wrapping otherwise. */
  function ContainsMinute(p: Period, w: int): (r: bool)
    ensures StartMinute(p) <= EndMinute(p) ==> (r <==> StartMinute(p) <= w <= EndMinute(p))
    ensures StartMinute(p) > EndMinute(p) ==> (r <==> w <= EndMinute(p) || w >= StartMinute(p))
  {
    var s := StartMinute(p);
    var e := EndMinute(p);
    if s <= e then s <= w && w <= e else w <= e || w >= s
  }

  /** Walking forward through the week from `s`, `w` comes no later than `e`. */
  predicate InCyclic(s: int, e: int, w: int)
  {
    (w - s) % MinutesPerWeek <= (e - s) % MinutesPerWeek
  }

  /** The remainder of a difference of two minutes of the week. */
  lemma ModWeek(x: int)
    requires -MinutesPerWeek < x < MinutesPerWeek
    ensures x % MinutesPerWeek == if x >= 0 then x else x + MinutesPerWeek
  {
  }

  /** Containment is membership of the cyclic interval from start to end. */
  lemma ContainsIsCyclic(p: Period, w: int)
    requires IsValid(p) && 0 <= w < MinutesPerWeek
    ensures ContainsMinute(p, w) <==> InCyclic(StartMinute(p), EndMinute(p), w)
  {
    MinuteOfWeekBounds(p.startDay, p.startHour, p.startMinutes);
    MinuteOfWeekBounds(p.endDay, p.endHour, p.endMinutes);
    ModWeek(w - StartMinute(p));
    ModWeek(EndMinute(p) - StartMinute(p));
  }

  // ---------------------------------------------------------------------------
  // Same hours, next day
  // ---------------------------------------------------------------------------

  /** `hasSameHoursAs`: the four time fields agree; days and ids do not matter. */
  predicate SameHours(p: Period, q: Period)
  {
    p.startHour == q.startHour && p.startMinutes == q.startMinutes
    && p.endHour == q.endHour && p.endMinutes == q.endMinutes
  }

  /** Same hours is an equivalence. */
  lemma SameHoursEquivalence(p: Period, q: Period, o: Period)
    ensures SameHours(p, p)
    ensures SameHours(p, q) ==> SameHours(q, p)
    ensures SameHours(p, q) && SameHours(q, o) ==> SameHours(p, o)
  {
  }

  /** The period starts at or after the time of day it ends. */
  predicate StartsAtOrAfterEnd(p: Period)
  {
    p.startHour > p.endHour || (p.startHour == p.endHour && p.startMinutes >= p.endMinutes)
  }

  /** Instance `nextDay`: the day a repetition of the period would start on. */
  function PeriodNextDay(p: Period): (r: Result<string, ClientError>)
    ensures StartsAtOrAfterEnd(p) ==> r == Ok(p.endDay)
    ensures !StartsAtOrAfterEnd(p) ==> r == NextDayOf(p.endDay)
  {
    if StartsAtOrAfterEnd(p) then Ok(p.endDay) else NextDayOf(p.endDay)
  }

  /** For a valid period the day returned is where its start time comes next,
      at or after the minute the period ends, and within a day of it. */
  lemma PeriodNextDayFollowsEnd(p: Period)
    requires IsValid(p)
    ensures PeriodNextDay(p).Ok?
    ensures var d := PeriodNextDay(p).value;
      IsDayCode(d) && 0 <= (MinuteOfWeek(d, p.startHour, p.startMinutes) - EndMinute(p)) % MinutesPerWeek < MinutesPerDay
  {
    var d := PeriodNextDay(p).value;
    var sh := p.startHour * 60 + p.startMinutes;
    var eh := p.endHour * 60 + p.endMinutes;
    assert StartsAtOrAfterEnd(p) <==> sh >= eh;
    assert MinuteOfWeek(d, p.startHour, p.startMinutes) == DayIndex(d) * 1440 + sh;
    assert EndMinute(p) == DayIndex(p.endDay) * 1440 + eh;
    NextStartArith(DayIndex(p.endDay), DayIndex(d), sh, eh);
  }

  /** The arithmetic of the lemma above, on the day positions and the
      minutes of the day. */
  lemma NextStartArith(di: int, dd: int, sh: int, eh: int)
    requires 0 <= di < 7 && 0 <= sh < 1440 && 0 <= eh < 1440
    requires (sh >= eh && dd == di) || (sh < eh && dd == (di + 1) % 7)
    ensures 0 <= (dd * 1440 + sh - (di * 1440 + eh)) % MinutesPerWeek < MinutesPerDay
  {
    var x := dd * 1440 + sh - (di * 1440 + eh);
    if sh < eh && di == 6 {
      assert dd == 0 && x == sh - 8640 - eh;
      ModWeek(x);
    } else if sh < eh {
      assert dd == di + 1 && x == 1440 + sh - eh;
    } else {
      assert x == sh - eh;
    }
  }

  // ---------------------------------------------------------------------------
  // Overlap
  // ---------------------------------------------------------------------------

  /** `overlaps` as written: `b` is this period's start again and the modulus
      is 11519, so the first disjunct only holds when both periods start at
      the same minute. `Math.mod` is defined in none of the files modelled; it
      is taken to be the non-negative remainder `((x % m) + m) % m`, which is
      Dafny's `%` for a positive modulus. */
  function OverlapsAsWritten(p: Period, q: Period): (r: bool)
  {
    var a := StartMinute(p);
    var b := StartMinute(p);
    var c := StartMinute(q);
    var d := EndMinute(q);
    (c - a) % AsWrittenModulus <= (b - a) % AsWrittenModulus
    || (a - c) % AsWrittenModulus <= (d - c) % AsWrittenModulus
  }

  /** What the as-written test reduces to on valid periods. */
  lemma OverlapsAsWrittenReduces(p: Period, q: Period)
    requires IsValid(p) && IsValid(q)
    ensures OverlapsAsWritten(p, q) <==>
      StartMinute(p) == StartMinute(q)
      || (StartMinute(p) - StartMinute(q)) % AsWrittenModulus <= (EndMinute(q) - StartMinute(q)) % AsWrittenModulus
  {
    MinuteOfWeekBounds(p.startDay, p.startHour, p.startMinutes);
    MinuteOfWeekBounds(q.startDay, q.startHour, q.startMinutes);
    var x := StartMinute(q) - StartMinute(p);
    assert x % AsWrittenModulus == 0 <==> x == 0;
  }

  /** `overlaps` as evidently intended: `b` is this period's end and the
      modulus is the length of the week. */
  function Overlaps(p: Period, q: Period): (r: bool)
  {
    var a := StartMinute(p);
    var b := EndMinute(p);
    var c := StartMinute(q);
    var d := EndMinute(q);
    (c - a) % MinutesPerWeek <= (b - a) % MinutesPerWeek
    || (a - c) % MinutesPerWeek <= (d - c) % MinutesPerWeek
  }

  /** The overlap test on four minutes of the week. */
  predicate CyclicOverlap(a: int, b: int, c: int, d: int)
  {
    (c - a) % MinutesPerWeek <= (b - a) % MinutesPerWeek
    || (a - c) % MinutesPerWeek <= (d - c) % MinutesPerWeek
  }

  predicate InWeek(x: int) { 0 <= x < MinutesPerWeek }

  /** When the test holds, the later of the two starts lies in both intervals. */
  lemma CyclicOverlapWitness(a: int, b: int, c: int, d: int)
    requires InWeek(a) && InWeek(b) && InWeek(c) && InWeek(d)
    requires CyclicOverlap(a, b, c, d)
    ensures (InCyclic(a, b, c) && InCyclic(c, d, c)) || (InCyclic(a, b, a) && InCyclic(c, d, a))
  {
    ModWeek(c - a);
    ModWeek(a - c);
  }

  /** A minute in both intervals makes the test hold. */
  lemma CyclicOverlapComplete(a: int, b: int, c: int, d: int, w: int)
    requires InWeek(a) && InWeek(b) && InWeek(c) && InWeek(d) && InWeek(w)
    requires InCyclic(a, b, w) && InCyclic(c, d, w)
    ensures CyclicOverlap(a, b, c, d)
  {
    ModWeek(c - a);
    ModWeek(a - c);
    ModWeek(w - a);
    ModWeek(w - c);
  }

  /** Two valid periods overlap exactly when some minute of the week lies in
      both of their cyclic intervals. */
  lemma OverlapsShareMinute(p: Period, q: Period)
    requires IsValid(p) && IsValid(q)
    ensures Overlaps(p, q) <==> exists w | 0 <= w < MinutesPerWeek ::
      InCyclic(StartMinute(p), EndMinute(p), w) && InCyclic(StartMinute(q), EndMinute(q), w)
  {
    var a, b, c, d := StartMinute(p), EndMinute(p), StartMinute(q), EndMinute(q);
    MinuteOfWeekBounds(p.startDay, p.startHour, p.startMinutes);
    MinuteOfWeekBounds(p.endDay, p.endHour, p.endMinutes);
    MinuteOfWeekBounds(q.startDay, q.startHour, q.startMinutes);
    MinuteOfWeekBounds(q.endDay, q.endHour, q.endMinutes);
    assert Overlaps(p, q) == CyclicOverlap(a, b, c, d);
    if Overlaps(p, q) {
      CyclicOverlapWitness(a, b, c, d);
    }
    forall w | 0 <= w < MinutesPerWeek && InCyclic(a, b, w) && InCyclic(c, d, w)
      ensures CyclicOverlap(a, b, c, d)
    {
      CyclicOverlapComplete(a, b, c, d, w);
    }
  }

  /** Monday 10:00-12:00 and Monday 11:00-13:00 share an hour, which the test
      as written misses, with `Math.mod` as the non-negative remainder. */
  lemma OverlapsAsWrittenMisses()
    ensures var p := Period(Fresh, Mon.Val(), 10, 0, Mon.Val(), 12, 0);
      var q := Period(Fresh, Mon.Val(), 11, 0, Mon.Val(), 13, 0);
      !OverlapsAsWritten(p, q) && Overlaps(p, q)
  {
    var p := Period(Fresh, Mon.Val(), 10, 0, Mon.Val(), 12, 0);
    var q := Period(Fresh, Mon.Val(), 11, 0, Mon.Val(), 13, 0);
    DayIndexOfDayAt(0);
    assert StartMinute(p) == 600 && EndMinute(p) == 720;
    assert StartMinute(q) == 660 && EndMinute(q) == 780;
  }

  // ---------------------------------------------------------------------------
  // Hour format
  // ---------------------------------------------------------------------------

  /** `formatHour`: hours above 12 lose 12 and read `pm`, every other hour
      reads `am` (so noon is `12am`); minutes follow a colon, unpadded, and
      are left out when 0. */
  function FormatHour(hour: int, minutes: int): (r: string)
    ensures |r| >= 3
  {
    var isPm := hour > 12;
    var h := if isPm then hour - 12 else hour;
    var minutesStr := if minutes != 0 then ":" + IntToString(minutes) else "";
    IntToString(h) + minutesStr + (if isPm then "pm" else "am")
  }

  /** A non-empty run of decimal digits. */
  predicate IsNumeral(s: string)
  {
    |s| > 0 && AllDigits(s)
  }

  /** Reads an hour text back: an `am`/`pm` suffix, hour digits, and
      optionally a colon and minute digits. */
  function ReadHour(s: string): (r: Option<(int, int)>)
  {
    if |s| < 2 then None else ReadParts(Split(s[..|s| - 2], ':'), s[|s| - 2..])
  }

  function ReadParts(parts: seq<string>, suffix: string): (r: Option<(int, int)>)
  {
    if suffix != "pm" && suffix != "am" then None
    else if |parts| == 1 && IsNumeral(parts[0]) then
      Some((DigitsValue(parts[0]) + (if suffix == "pm" then 12 else 0), 0))
    else if |parts| == 2 && IsNumeral(parts[0]) && IsNumeral(parts[1]) then
      Some((DigitsValue(parts[0]) + (if suffix == "pm" then 12 else 0), DigitsValue(parts[1])))
    else None
  }

  /** Text without a separator splits into itself. */
  lemma SplitNone(s: string, sep: char)
    requires sep !in s
    ensures Split(s, sep) == [s]
  {
  }

  /** A text made of a body and a two-letter suffix splits back into them. */
  lemma SuffixParts(s: string, body: string, suffix: string)
    requires s == body + suffix && |suffix| == 2
    ensures |s| >= 2 && s[|s| - 2..] == suffix && s[..|s| - 2] == body
  {
  }

  /** The hour text is the hour digits, the minutes part and the suffix. */
  lemma FormatHourParts(hour: int, minutes: int)
    requires 0 <= hour < 24 && 0 <= minutes < 60
    ensures var h := if hour > 12 then hour - 12 else hour;
      var mid := if minutes != 0 then ":" + NatToString(minutes) else "";
      FormatHour(hour, minutes) == (NatToString(h) + mid) + (if hour > 12 then "pm" else "am")
  {
  }

  /** The hour and minutes parts of the body split apart at the colon. */
  lemma SplitHourBody(h: nat, minutes: nat)
    ensures var mid := if minutes != 0 then ":" + NatToString(minutes) else "";
      var parts := Split(NatToString(h) + mid, ':');
      && (minutes != 0 ==> parts == [NatToString(h), NatToString(minutes)])
      && (minutes == 0 ==> parts == [NatToString(h)])
  {
    var hs := NatToString(h);
    var ms := NatToString(minutes);
    assert ':' !in hs by { assert forall i | 0 <= i < |hs| :: IsDigit(hs[i]); }
    if minutes != 0 {
      assert ':' !in ms by { assert forall i | 0 <= i < |ms| :: IsDigit(ms[i]); }
      assert hs + (":" + ms) == hs + [':'] + ms;
      SplitOnce(hs + [':'] + ms, ':', hs, ms);
    } else {
      assert hs + "" == hs;
      SplitNone(hs, ':');
    }
  }

  lemma ReadPartsOf(parts: seq<string>, suffix: string)
    requires suffix == "pm" || suffix == "am"
    requires 1 <= |parts| <= 2 && IsNumeral(parts[0]) && (|parts| == 2 ==> IsNumeral(parts[1]))
    ensures var h := DigitsValue(parts[0]) + (if suffix == "pm" then 12 else 0);
      ReadParts(parts, suffix) == Some((h, if |parts| == 2 then DigitsValue(parts[1]) else 0))
  {
  }

  /** The hour text of a valid time reads back as that time. */
  lemma FormatHourRoundTrip(hour: int, minutes: int)
    requires 0 <= hour < 24 && 0 <= minutes < 60
    ensures ReadHour(FormatHour(hour, minutes)) == Some((hour, minutes))
  {
    var h := if hour > 12 then hour - 12 else hour;
    var mid := if minutes != 0 then ":" + NatToString(minutes) else "";
    var suffix := if hour > 12 then "pm" else "am";
    FormatHourParts(hour, minutes);
    ReadHourOf(FormatHour(hour, minutes), NatToString(h) + mid, suffix);
    ReadBodyBack(hour, minutes);
  }

  /** Reading a body followed by a two-letter suffix reads the body's parts. */
  lemma ReadHourOf(s: string, body: string, suffix: string)
    requires s == body + suffix && |suffix| == 2
    ensures ReadHour(s) == ReadParts(Split(body, ':'), suffix)
  {
    SuffixParts(s, body, suffix);
  }

  /** The body and suffix of a valid time read back as that time. */
  lemma ReadBodyBack(hour: int, minutes: int)
    requires 0 <= hour < 24 && 0 <= minutes < 60
    ensures var h := if hour > 12 then hour - 12 else hour;
      var mid := if minutes != 0 then ":" + NatToString(minutes) else "";
      ReadParts(Split(NatToString(h) + mid, ':'), if hour > 12 then "pm" else "am") == Some((hour, minutes))
  {
    var h := if hour > 12 then hour - 12 else hour;
    var suffix := if hour > 12 then "pm" else "am";
    SplitHourBody(h, minutes);
    assert (suffix == "pm") == (hour > 12) by {
      if hour <= 12 { assert suffix[0] == 'a'; }
    }
    DigitsValueOfNatToString(h);
    DigitsValueOfNatToString(minutes);
    var mid := if minutes != 0 then ":" + NatToString(minutes) else "";
    ReadPartsOf(Split(NatToString(h) + mid, ':'), suffix);
  }

  /** Noon reads `12am`, and minutes are not padded. */
  lemma FormatHourQuirks()
    ensures FormatHour(12, 0) == "12am"
    ensures FormatHour(13, 5) == "1:5pm"
  {
    assert NatToString(12) == "12";
  }

  // ---------------------------------------------------------------------------
  // Grouping into display lines
  // ---------------------------------------------------------------------------

  /** A display line: the period that starts it, the name of the day it ends
      on so far, and the day a continuation would start on. */
  datatype Schedule = Schedule(startPeriod: Period, endDay: Option<string>, nextDay: string)

  /** The end day of a line is a day name, or missing for an unknown code. */
  predicate NamedEnd(s: Schedule)
  {
    s.endDay.Some? ==> IsDayName(s.endDay.value)
  }

  predicate AllNamedEnds(schedules: seq<Schedule>)
  {
    forall k | 0 <= k < |schedules| :: NamedEnd(schedules[k])
  }

  /** `p` continues a line that started with `start` and goes on at `nextDay`. */
  predicate Continues(p: Period, start: Period, nextDay: string)
  {
    SameHours(p, start) && p.startDay == nextDay
  }

  /** The first left period that continues the line. */
  function FindNext(left: seq<Period>, start: Period, nextDay: string): (r: Option<nat>)
    ensures r.None? <==> forall i | 0 <= i < |left| :: !Continues(left[i], start, nextDay)
    ensures r.Some? ==> r.value < |left| && Continues(left[r.value], start, nextDay)
    ensures r.Some? ==> forall j | 0 <= j < r.value :: !Continues(left[j], start, nextDay)
  {
    if |left| == 0 then None
    else if Continues(left[0], start, nextDay) then Some(0)
    else match FindNext(left[1..], start, nextDay)
      case None => None
      case Some(k) => Some(k + 1)
  }

  /** The periods follow one another day by day from `day`: each starts on
      the day the previous one continues on. */
  predicate Chain(day: string, ps: seq<Period>)
    decreases |ps|
  {
    |ps| == 0 || (ps[0].startDay == day && PeriodNextDay(ps[0]).Ok? && Chain(PeriodNextDay(ps[0]).value, ps[1..]))
  }

  predicate EndDaysKnown(ps: seq<Period>)
  {
    forall p | p in ps :: IsDayCode(p.endDay)
  }

  /** What a split of a multiset of periods keeps. */
  lemma PartOf(whole: seq<Period>, part: seq<Period>, other: seq<Period>)
    requires multiset(whole) == multiset(part) + multiset(other)
    ensures |whole| == |part| + |other|
    ensures EndDaysKnown(whole) ==> EndDaysKnown(part)
  {
    assert |multiset(whole)| == |multiset(part)| + |multiset(other)|;
    forall x | x in part ensures x in whole {
      assert x in multiset(part);
      assert x in multiset(whole);
    }
  }

  /** The inner search: keeps absorbing the first period that continues the
      line until none does. Returns the periods left, the line, and the
      periods absorbed in order. */
  function Extend(left: seq<Period>, sched: Schedule): (r: Result<(seq<Period>, Schedule, seq<Period>), ClientError>)
    ensures EndDaysKnown(left) ==> r.Ok?
    ensures r.Ok? ==> var (rest, s, absorbed) := r.value;
      && multiset(left) == multiset(rest) + multiset(absorbed)
      && s.startPeriod == sched.startPeriod
      && (forall k | 0 <= k < |absorbed| :: SameHours(absorbed[k], sched.startPeriod))
      && Chain(sched.nextDay, absorbed)
      && FindNext(rest, s.startPeriod, s.nextDay).None?
      && (|absorbed| == 0 ==> s == sched)
    ensures r.Ok? && NamedEnd(sched) ==> NamedEnd(r.value.1)
    decreases |left|
  {
    match FindNext(left, sched.startPeriod, sched.nextDay)
    case None => Ok((left, sched, []))
    case Some(i) =>
      var p := left[i];
      assert p in multiset(left);
      var nd :- PeriodNextDay(p);
      var smaller := RemoveAt(left, i);
      PartOf(left, smaller, [p]);
      var (rest, s, absorbed) :- Extend(smaller, sched.(endDay := DayName(p.endDay), nextDay := nd));
      ExtendStep(left, sched, i, nd, rest, s, absorbed);
      Ok((rest, s, [p] + absorbed))
  }

  /** What the line built from the remaining periods keeps carries over once
      the period absorbed first is put in front. */
  lemma ExtendStep(left: seq<Period>, sched: Schedule, i: nat, nd: string, rest: seq<Period>, s: Schedule, absorbed: seq<Period>)
    requires i < |left| && Continues(left[i], sched.startPeriod, sched.nextDay)
    requires PeriodNextDay(left[i]) == Ok(nd)
    requires multiset(RemoveAt(left, i)) == multiset(rest) + multiset(absorbed)
    requires var next := sched.(endDay := DayName(left[i].endDay), nextDay := nd);
      && s.startPeriod == next.startPeriod
      && (forall k | 0 <= k < |absorbed| :: SameHours(absorbed[k], next.startPeriod))
      && Chain(nd, absorbed)
      && (|absorbed| == 0 ==> s == next)
      && (NamedEnd(next) ==> NamedEnd(s))
    ensures var all := [left[i]] + absorbed;
      && multiset(left) == multiset(rest) + multiset(all)
      && s.startPeriod == sched.startPeriod
      && (forall k | 0 <= k < |all| :: SameHours(all[k], sched.startPeriod))
      && Chain(sched.nextDay, all)
      && (NamedEnd(sched) ==> NamedEnd(s))
  {
    var all := [left[i]] + absorbed;
    assert all[1..] == absorbed;
  }

  /** The first earlier line that the new one runs into: same hours, and the
      new line continues on the day the earlier one starts. */
  function FindJoin(schedules: seq<Schedule>, s: Schedule): (r: Option<nat>)
    ensures r.None? <==> forall j | 0 <= j < |schedules| :: !Joins(schedules[j], s)
    ensures r.Some? ==> r.value < |schedules| && Joins(schedules[r.value], s)
    ensures r.Some? ==> forall j | 0 <= j < r.value :: !Joins(schedules[j], s)
  {
    if |schedules| == 0 then None
    else if Joins(schedules[0], s) then Some(0)
    else match FindJoin(schedules[1..], s)
      case None => None
      case Some(k) => Some(k + 1)
  }

  predicate Joins(earlier: Schedule, s: Schedule)
  {
    SameHours(earlier.startPeriod, s.startPeriod) && s.nextDay == earlier.startPeriod.startDay
  }

  /** Adds a finished line: when it runs into an earlier line, that line
      starts at the new line's start period instead (keeping its end);
      otherwise the line is appended. */
  function Merge(schedules: seq<Schedule>, s: Schedule): (r: seq<Schedule>)
    ensures FindJoin(schedules, s).None? ==> r == schedules + [s]
    ensures FindJoin(schedules, s).Some? ==> var j := FindJoin(schedules, s).value;
      |r| == |schedules| && r[j].startPeriod == s.startPeriod && r[j].endDay == schedules[j].endDay
      && r[j].nextDay == schedules[j].nextDay
      && forall k | 0 <= k < |r| && k != j :: r[k] == schedules[k]
    ensures AllNamedEnds(schedules) && NamedEnd(s) ==> AllNamedEnds(r)
  {
    match FindJoin(schedules, s)
    case None => schedules + [s]
    case Some(j) => schedules[j := schedules[j].(startPeriod := s.startPeriod)]
  }

  /** Every line starts at one of the given periods. */
  predicate StartsAmong(schedules: seq<Schedule>, ps: seq<Period>)
  {
    forall k | 0 <= k < |schedules| :: schedules[k].startPeriod in ps
  }

  /** The start periods of the lines, in order. */
  function Starts(schedules: seq<Schedule>): (r: seq<Period>)
    ensures |r| == |schedules| && forall k | 0 <= k < |r| :: r[k] == schedules[k].startPeriod
  {
    seq(|schedules|, k requires 0 <= k < |schedules| => schedules[k].startPeriod)
  }

  /** Merging a line that starts at `p` only brings in `p` as a new start. */
  lemma MergeStarts(schedules: seq<Schedule>, s: Schedule, ps: seq<Period>)
    requires StartsAmong(schedules, ps) && s.startPeriod in ps
    ensures StartsAmong(Merge(schedules, s), ps)
  {
  }

  /** The outer loop of `groupPeriodsWithSameSchedule`: takes the first period
      left, extends its line and merges it; the number of lines never exceeds
      the lines so far plus the periods left. */
  function Group(left: seq<Period>, schedules: seq<Schedule>): (r: Result<seq<Schedule>, ClientError>)
    ensures EndDaysKnown(left) ==> r.Ok?
    ensures r.Ok? ==> |r.value| <= |schedules| + |left|
    ensures r.Ok? ==> StartsAmong(r.value, Starts(schedules) + left)
    ensures r.Ok? && AllNamedEnds(schedules) ==> AllNamedEnds(r.value)
    decreases |left|
  {
    if |left| == 0 then
      assert Starts(schedules) + left == Starts(schedules);
      Ok(schedules)
    else
      var next := left[0];
      var nd :- PeriodNextDay(next);
      var tail := left[1..];
      assert EndDaysKnown(left) ==> EndDaysKnown(tail) by {
        forall x | x in tail ensures x in left { }
      }
      var (rest, s, absorbed) :- Extend(tail, Schedule(next, DayName(next.endDay), nd));
      PartOf(tail, rest, absorbed);
      var merged := Merge(schedules, s);
      var ps := Starts(schedules) + left;
      MergeStarts(schedules, s, ps);
      var r :- Group(rest, merged);
      assert StartsAmong(r, ps) by {
        forall x | x in Starts(merged) + rest ensures x in ps {
          if x in rest {
            assert x in multiset(rest);
            assert x in multiset(tail);
          } else {
            var k :| 0 <= k < |merged| && x == merged[k].startPeriod;
          }
        }
      }
      Ok(r)
  }

  /** `groupPeriodsWithSameSchedule`: at most one line per period, and every
      line starts at one of the periods. */
  function GroupPeriods(periods: seq<Period>): (r: Result<seq<Schedule>, ClientError>)
    ensures EndDaysKnown(periods) ==> r.Ok?
    ensures r.Ok? ==> |r.value| <= |periods|
    ensures r.Ok? ==> StartsAmong(r.value, periods)
    ensures r.Ok? ==> AllNamedEnds(r.value)
  {
    assert Starts([]) + periods == periods;
    Group(periods, [])
  }
}
