/** The page that lists the items of one category: the opening-hours text
    of each item, whether map buttons are shown, the state saved in the
    history and the hash that leads back to the page. */
module ListPage {
  import opened Common
  import opened ClientItem
  import ClientPeriod
  import WeekDays
  import ItemTypes
  import Svc = ApiService
  import opened PageState

  const ListPageClass: string := "ListPage"

  /** The page: its category and the items listed. */
  datatype ListPage = ListPage(category: Svc.Category, items: seq<Item>)

  // ---------------------------------------------------------------------------
  // Opening hours as text
  // ---------------------------------------------------------------------------

  /** The days of a line: the start day alone when it is also the end day,
      `start-end` otherwise; a day name that does not exist reads
      `undefined`. */
  function DaysText(startDay: Option<string>, endDay: Option<string>): string
  {
    if startDay != endDay then TemplateText(startDay) + "-" + TemplateText(endDay)
    else TemplateText(startDay)
  }

  /** The days text reads back as its one or two day names. */
  lemma DaysTextReadsBack(startDay: Option<string>, endDay: Option<string>)
    requires '-' !in TemplateText(startDay) && '-' !in TemplateText(endDay)
    ensures Split(DaysText(startDay, endDay), '-') ==
      if startDay == endDay then [TemplateText(startDay)] else [TemplateText(startDay), TemplateText(endDay)]
  {
    if startDay != endDay {
      SplitOnce(DaysText(startDay, endDay), '-', TemplateText(startDay), TemplateText(endDay));
    } else {
      SplitJoin([TemplateText(startDay)], '-');
    }
  }

  /** Day names, and the text of a missing one, hold neither `-` nor `<`. */
  lemma DayTextPlain(name: Option<string>)
    requires name.Some? ==> ClientPeriod.IsDayName(name.value)
    ensures var t := TemplateText(name); '-' !in t && '<' !in t
  {
    if name.Some? {
      var d: WeekDays.WeekDay :| ClientPeriod.Name(d) == name.value;
      match d {
        case Mon =>
        case Tue =>
        case Wed =>
        case Thu =>
        case Fri =>
        case Sat =>
        case Sun =>
      }
    } else {
      assert TemplateText(name) == "undefined";
    }
  }

  /** One line: `<days> <start hour>-<end hour><br>`. */
  function PeriodLine(s: ClientPeriod.Schedule): string
  {
    var p := s.startPeriod;
    DaysText(ClientPeriod.DayName(p.startDay), s.endDay) + " "
      + ClientPeriod.FormatHour(p.startHour, p.startMinutes) + "-"
      + ClientPeriod.FormatHour(p.endHour, p.endMinutes) + "<br>"
  }

  /** Each line holds exactly one `<`, the one of its `<br>`. */
  lemma PeriodLineHasOneBreak(s: ClientPeriod.Schedule)
    requires ClientPeriod.NamedEnd(s)
    ensures Count(PeriodLine(s), '<') == 1
  {
    var p := s.startPeriod;
    DayTextPlain(ClientPeriod.DayName(p.startDay));
    DayTextPlain(s.endDay);
    var days := DaysText(ClientPeriod.DayName(p.startDay), s.endDay);
    var h1 := ClientPeriod.FormatHour(p.startHour, p.startMinutes);
    var h2 := ClientPeriod.FormatHour(p.endHour, p.endMinutes);
    HourPlain(p.startHour, p.startMinutes);
    HourPlain(p.endHour, p.endMinutes);
    assert '<' !in days;
    var head := days + " " + h1 + "-" + h2;
    assert '<' !in head;
    CountAppend(head, "<br>", '<');
    assert Count("<br>", '<') == 1 by {
      assert "<br>"[1..] == "br>";
      assert "br>"[1..] == "r>";
      assert "r>"[1..] == ">";
    }
  }

  lemma HourPlain(hour: int, minutes: int)
    ensures '<' !in ClientPeriod.FormatHour(hour, minutes)
  {
    var h := if hour > 12 then hour - 12 else hour;
    var t := IntToString(h);
    assert forall i | 0 <= i < |t| :: t[i] != '<' by {
      if h >= 0 {
        assert AllDigits(t);
      } else {
        assert AllDigits(t[1..]);
        assert forall i | 1 <= i < |t| :: t[i] == t[1..][i - 1];
      }
    }
    if minutes != 0 {
      var m := IntToString(minutes);
      assert forall i | 0 <= i < |m| :: m[i] != '<' by {
        if minutes >= 0 {
          assert AllDigits(m);
        } else {
          assert AllDigits(m[1..]);
          assert forall i | 1 <= i < |m| :: m[i] == m[1..][i - 1];
        }
      }
    }
  }

  /** The lines of a list of schedules, in order. */
  function Lines(schedules: seq<ClientPeriod.Schedule>): (r: seq<string>)
    ensures |r| == |schedules| && forall i | 0 <= i < |r| :: r[i] == PeriodLine(schedules[i])
  {
    seq(|schedules|, i requires 0 <= i < |schedules| => PeriodLine(schedules[i]))
  }

  /** `_periodsStrFor`: the periods grouped into lines with the same hours
      on consecutive days, one line per group; no periods give no text. */
  function PeriodsText(item: Item): (r: Result<string, ClientPeriod.ClientError>)
    ensures item.openingHours == [] ==> r == Ok("")
    ensures ClientPeriod.EndDaysKnown(item.openingHours) ==> r.Ok?
  {
    match ClientPeriod.GroupPeriods(item.openingHours)
    case Ok(schedules) =>
      assert item.openingHours == [] ==> schedules == [] by {
        if item.openingHours == [] {
          assert |schedules| <= 0;
        }
      }
      Ok(Concat(Lines(schedules)))
    case Err(e) => Err(e)
  }

  /** The text holds one `<br>` per group, so never more lines than
      periods. */
  lemma PeriodsTextLineCount(item: Item)
    requires ClientPeriod.GroupPeriods(item.openingHours).Ok?
    ensures var schedules := ClientPeriod.GroupPeriods(item.openingHours).value;
      Count(PeriodsText(item).value, '<') == |schedules| <= |item.openingHours|
  {
    LinesCount(ClientPeriod.GroupPeriods(item.openingHours).value);
  }

  lemma {:induction false} LinesCount(schedules: seq<ClientPeriod.Schedule>)
    requires ClientPeriod.AllNamedEnds(schedules)
    ensures Count(Concat(Lines(schedules)), '<') == |schedules|
    decreases |schedules|
  {
    if |schedules| > 0 {
      PeriodLineHasOneBreak(schedules[0]);
      assert Lines(schedules)[1..] == Lines(schedules[1..]);
      LinesCount(schedules[1..]);
      CountAppend(PeriodLine(schedules[0]), Concat(Lines(schedules[1..])), '<');
    }
  }

  // ---------------------------------------------------------------------------
  // Map buttons, state and hash
  // ---------------------------------------------------------------------------

  /** `shouldShowMapButton`: every category but those of links shows map
      buttons. */
  function ShouldShowMapButton(page: ListPage): (r: bool)
    ensures r <==> ItemTypes.ForStr(page.category.itemType) != Ok(ItemTypes.ItemType.Link)
  {
    page.category.itemType != ItemTypes.ItemType.Link.Val()
  }

  /** `getState`: the page class, the items as objects, the category, and
      the hash `itemType,code`. */
  function GetState(page: ListPage): (r: PageState)
    ensures r.pageClass == Some(ListPageClass) && r.category == Some(page.category)
    ensures r.hash == Some(page.category.itemType + "," + page.category.code)
    ensures r.items == Svc.ToObjects(page.items)
  {
    BaseState.(
      pageClass := Some(ListPageClass),
      items := Svc.ToObjects(page.items),
      category := Some(page.category),
      hash := Some(page.category.itemType + "," + page.category.code))
  }

  /** `fromState`: refused unless the state is a list page's; the page is
      rebuilt from the state's category and items. */
  function FromState(state: PageState): (r: Result<ListPage, PageError>)
    ensures state.pageClass != Some(ListPageClass) ==> r == Err(WrongPageClass(ListPageClass))
    ensures r.Ok? ==> Some(r.value.category) == state.category && r.value.items == FromObjects(state.items)
  {
    if state.pageClass != Some(ListPageClass) then Err(WrongPageClass(ListPageClass))
    else match state.category
      case None => Err(MissingCategory)
      case Some(c) => Ok(ListPage(c, FromObjects(state.items)))
  }

  /** A page restored from its own saved state is the same page. */
  lemma StateRoundTrip(page: ListPage)
    ensures FromState(GetState(page)) == Ok(page)
  {
    FromObjectsToObjects(page.items);
  }

  /** `navigateFromHash`: the item type and category code of a hash made of
      two fields of letters, digits, `_` or `-` around one comma; no
      navigation for any other hash. */
  function ParseHash(hash: string): (r: Option<(string, string)>)
    ensures r.Some? ==> IsHashWord(r.value.0) && IsHashWord(r.value.1)
    ensures r.Some? ==> hash == r.value.0 + "," + r.value.1
  {
    var parts := Split(hash, ',');
    if |parts| == 2 && IsHashWord(parts[0]) && IsHashWord(parts[1]) then
      assert Join(parts, ',') == parts[0] + [','] + parts[1];
      Some((parts[0], parts[1]))
    else None
  }

  /** Every hash of that shape is accepted and read back as its two
      fields. */
  lemma ParseHashAccepts(itemType: string, code: string)
    requires IsHashWord(itemType) && IsHashWord(code)
    ensures ParseHash(itemType + "," + code) == Some((itemType, code))
  {
    CommaFree(itemType);
    CommaFree(code);
    SplitOnce(itemType + "," + code, ',', itemType, code);
  }

  lemma CommaFree(s: string)
    requires IsHashWord(s)
    ensures ',' !in s
  {
    forall i | 0 <= i < |s| ensures s[i] != ',' {
      assert IsHashChar(s[i]);
    }
  }

  /** A page whose category's type and code are hash fields is found again
      from its saved hash. */
  lemma HashRoundTrip(page: ListPage)
    requires IsHashWord(page.category.itemType) && IsHashWord(page.category.code)
    ensures ParseHash(GetState(page).hash.value) == Some((page.category.itemType, page.category.code))
  {
    ParseHashAccepts(page.category.itemType, page.category.code);
  }

  /** After the categories of the hash's item type arrive: the page of the
      category with the hash's code, or none when the answer has no such
      category (the source then fails reading its name). */
  function Landing(categories: map<string, Svc.Category>, code: string): (r: Option<ListPage>)
    ensures r.Some? <==> code in categories
    ensures r.Some? ==> r.value.category == categories[code] && r.value.items == []
  {
    if code in categories then Some(ListPage(categories[code], [])) else None
  }
}
