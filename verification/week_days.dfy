/** The seven week days stored with every opening period. */
module WeekDays {
  import opened Common

  datatype WeekDay = Mon | Tue | Wed | Thu | Fri | Sat | Sun
  {
    /** The three-letter code the database and the API use. */
    function Val(): (r: string)
      ensures |r| == 3
    {
      match this
      case Mon => "mon"
      case Tue => "tue"
      case Wed => "wed"
      case Thu => "thu"
      case Fri => "fri"
      case Sat => "sat"
      case Sun => "sun"
    }

    /** The position in the week, Monday first. */
    function Index(): (r: nat)
      ensures r < 7
    {
      match this
      case Mon => 0
      case Tue => 1
      case Wed => 2
      case Thu => 3
      case Fri => 4
      case Sat => 5
      case Sun => 6
    }
  }

  /** The day at a position of the week, Monday first. */
  function DayAt(i: nat): (r: WeekDay)
    requires i < 7
    ensures r.Index() == i
  {
    if i == 0 then Mon else if i == 1 then Tue else if i == 2 then Wed
    else if i == 3 then Thu else if i == 4 then Fri else if i == 5 then Sat else Sun
  }

  /** A day is the day at its own position. */
  lemma DayAtIndex(d: WeekDay)
    ensures DayAt(d.Index()) == d
  {
  }

  datatype DayError = InvalidWeekDayStr(str: string)

  /** The day whose code equals `s` exactly (letter case matters), trying the
      days in the order the enum lists them. */
  function ForStr(s: string): (r: Result<WeekDay, DayError>)
    ensures r.Ok? ==> r.value.Val() == s
    ensures r.Err? ==> r.error == InvalidWeekDayStr(s)
    ensures r.Err? ==> forall d: WeekDay :: d.Val() != s
  {
    if s == Mon.Val() then Ok(Mon)
    else if s == Tue.Val() then Ok(Tue)
    else if s == Wed.Val() then Ok(Wed)
    else if s == Thu.Val() then Ok(Thu)
    else if s == Fri.Val() then Ok(Fri)
    else if s == Sat.Val() then Ok(Sat)
    else if s == Sun.Val() then Ok(Sun)
    else Err(InvalidWeekDayStr(s))
  }

  /** A string `forStr` accepts. */
  predicate IsDayCode(s: string)
  {
    ForStr(s).Ok?
  }

  /** The accepted strings are exactly the seven codes. */
  lemma DayCodes(s: string)
    ensures IsDayCode(s) <==> exists d: WeekDay :: d.Val() == s
  {
    if IsDayCode(s) {
      assert ForStr(s).value.Val() == s;
    }
  }

  /** The seven codes are pairwise distinct. */
  lemma {:induction false} ValInjective(d: WeekDay, e: WeekDay)
    ensures d.Val() == e.Val() <==> d == e
  {
    if d != e {
      assert d.Val()[0] != e.Val()[0] || d.Val()[1] != e.Val()[1];
    }
  }

  /** Parsing a day's own code gives the day back. */
  lemma {:induction false} ForStrOfVal(d: WeekDay)
    ensures ForStr(d.Val()) == Ok(d)
  {
    var r := ForStr(d.Val());
    if r.Ok? {
      ValInjective(r.value, d);
    }
  }
}
