/** The two item-writing transactions over an abstract store: creating an item
    with its opening periods, and reconciling an item's stored periods with the
    ones sent in an update. */
module ItemTransactions {
  import opened Common
  import opened WeekDays
  import opened ApiInterface
  import opened ApiPeriods
  import opened ItemBodies

  /** The database as the transactions see it: the existing item ids, the
      periods by id, and the ids the next insertions receive. */
  datatype Store = Store(items: set<int>, periods: map<int, Period>, nextItemId: int, nextPeriodId: int)

  /** Every stored period sits under its own id; ids handed out so far lie below
      the next ones. */
  predicate IsSound(s: Store)
  {
    (forall id | id in s.periods :: s.periods[id].periodId == id && id < s.nextPeriodId)
    && (forall id | id in s.items :: id < s.nextItemId)
  }

  datatype TxError =
    | BodyErr(body: BodyError)
    | DayErr(day: DayError)
    | RangeErr(range: PeriodError)
    | NotAnInteger(key: string)
    | ItemNotFound(itemId: int)
    | OutOfRangeInBody

  // ---------------------------------------------------------------------------
  // Reading sent period values
  // ---------------------------------------------------------------------------

  /** A missing key reads as null, as PHP reads an absent array entry. */
  function ValueOf(values: PeriodValues, k: string): Json
  {
    if k in values then values[k] else JNull
  }

  /** An integer argument: only a number is taken. */
  function IntOf(values: PeriodValues, k: string): (r: Result<int, TxError>)
    ensures r.Ok? <==> ValueOf(values, k).JNum?
    ensures r.Ok? ==> ValueOf(values, k) == JNum(r.value)
    ensures r.Err? ==> r.error == NotAnInteger(k)
  {
    match ValueOf(values, k)
    case JNum(n) => Ok(n)
    case _ => Err(NotAnInteger(k))
  }

  /** A sent value naming a day: a string `forStr` accepts. */
  predicate IsDayValue(v: Json)
  {
    v.JStr? && IsDayCode(v.s)
  }

  /** `WeekDays::forStr` of a sent value; only a string can name a day. */
  function DayOf(values: PeriodValues, k: string): (r: Result<WeekDay, TxError>)
    ensures r.Ok? <==> IsDayValue(ValueOf(values, k))
    ensures r.Ok? ==> ValueOf(values, k) == JStr(r.value.Val())
    ensures r.Err? ==> r.error.DayErr?
  {
    var v := ValueOf(values, k);
    if v.JStr? then
      match ForStr(v.s)
      case Ok(d) => Ok(d)
      case Err(e) => Err(DayErr(e))
    else Err(DayErr(InvalidWeekDayStr(JsonText(v))))
  }

  /** The six day and time values sent, in the order of the period's fields. */
  function SentTimes(values: PeriodValues): (Json, Json, Json, Json, Json, Json)
  {
    (ValueOf(values, PeriodStartDay), ValueOf(values, PeriodStartHour), ValueOf(values, PeriodStartMinutes),
     ValueOf(values, PeriodEndDay), ValueOf(values, PeriodEndHour), ValueOf(values, PeriodEndMinutes))
  }

  /** A period's day and time fields as they are sent. */
  function TimesOf(p: Period): (Json, Json, Json, Json, Json, Json)
  {
    (JStr(p.startDay.Val()), JNum(p.startHour), JNum(p.startMinutes),
     JStr(p.endDay.Val()), JNum(p.endHour), JNum(p.endMinutes))
  }

  /** The period holds the six day and time values sent. */
  predicate Carries(p: Period, values: PeriodValues)
  {
    SentTimes(values) == TimesOf(p)
  }

  /** Values a period can be built from: two day codes and four numbers. */
  predicate IsDraftable(values: PeriodValues)
  {
    IsDayValue(ValueOf(values, PeriodStartDay)) && IsDayValue(ValueOf(values, PeriodEndDay))
    && ValueOf(values, PeriodStartHour).JNum? && ValueOf(values, PeriodStartMinutes).JNum?
    && ValueOf(values, PeriodEndHour).JNum? && ValueOf(values, PeriodEndMinutes).JNum?
  }

  /** Draftable values whose hours and minutes are in range. */
  predicate IsSettable(values: PeriodValues)
  {
    IsDraftable(values)
    && IsHour(ValueOf(values, PeriodStartHour).n) && IsMinutes(ValueOf(values, PeriodStartMinutes).n)
    && IsHour(ValueOf(values, PeriodEndHour).n) && IsMinutes(ValueOf(values, PeriodEndMinutes).n)
  }

  // ---------------------------------------------------------------------------
  // New periods
  // ---------------------------------------------------------------------------

  /** `newPeriod`: both days are looked up, then the four numbers taken; the
      database's triggers refuse an hour outside 0..23 or minutes outside
      0..59, which the gateway reports as an invalid value in the body. */
  function Draft(values: PeriodValues, id: int, itemId: int): (r: Result<Period, TxError>)
    ensures r.Ok? <==> IsSettable(values)
    ensures r.Err? && IsDraftable(values) ==> r.error == OutOfRangeInBody
    ensures r.Ok? ==> Carries(r.value, values) && r.value.periodId == id && r.value.itemId == itemId
    ensures r.Ok? ==> IsValid(r.value)
  {
    var startDay :- DayOf(values, PeriodStartDay);
    var endDay :- DayOf(values, PeriodEndDay);
    var startHour :- IntOf(values, PeriodStartHour);
    var startMinutes :- IntOf(values, PeriodStartMinutes);
    var endHour :- IntOf(values, PeriodEndHour);
    var endMinutes :- IntOf(values, PeriodEndMinutes);
    if IsHour(startHour) && IsMinutes(startMinutes) && IsHour(endHour) && IsMinutes(endMinutes) then
      Ok(Period(id, startDay, startHour, startMinutes, endDay, endHour, endMinutes, itemId))
    else Err(OutOfRangeInBody)
  }

  /** `newPeriod` for every entry, in order, under consecutive ids from
      `first`; the first entry that cannot be drafted stops the loop. */
  function DraftAll(drafts: seq<PeriodValues>, first: int, itemId: int): (r: Result<seq<Period>, TxError>)
    ensures r.Ok? <==> forall i | 0 <= i < |drafts| :: IsSettable(drafts[i])
    ensures r.Ok? ==> |r.value| == |drafts|
    decreases |drafts|
  {
    if |drafts| == 0 then Ok([])
    else
      assert forall i | 1 <= i < |drafts| :: drafts[i] == drafts[1..][i - 1];
      var p :- Draft(drafts[0], first, itemId);
      var ps :- DraftAll(drafts[1..], first + 1, itemId);
      Ok([p] + ps)
  }

  /** A new period for the item holding the entry's values. */
  predicate IsDraftOf(p: Period, values: PeriodValues, itemId: int)
  {
    Carries(p, values) && p.itemId == itemId
  }

  /** The ids from `first` on hold one period per entry of `drafts`, in order,
      each carrying its entry's values and belonging to the item. */
  predicate HoldsDrafts(t: Store, first: int, drafts: seq<PeriodValues>, itemId: int)
  {
    forall pid | first <= pid < first + |drafts| ::
      pid in t.periods && IsDraftOf(t.periods[pid], drafts[pid - first], itemId)
  }

  /** The `i`-th draft carries the `i`-th entry under the `i`-th id. */
  lemma {:induction false} DraftAllContents(drafts: seq<PeriodValues>, first: int, itemId: int)
    requires DraftAll(drafts, first, itemId).Ok?
    ensures var ps := DraftAll(drafts, first, itemId).value;
      forall i | 0 <= i < |ps| :: ps[i].periodId == first + i && IsDraftOf(ps[i], drafts[i], itemId)
    decreases |drafts|
  {
    if |drafts| > 0 {
      var ps := DraftAll(drafts, first, itemId).value;
      var tail := DraftAll(drafts[1..], first + 1, itemId).value;
      DraftAllContents(drafts[1..], first + 1, itemId);
      assert ps == [Draft(drafts[0], first, itemId).value] + tail;
      forall i | 1 <= i < |ps|
        ensures ps[i].periodId == first + i && IsDraftOf(ps[i], drafts[i], itemId)
      {
        assert ps[i] == tail[i - 1] && drafts[i] == drafts[1..][i - 1];
      }
    }
  }

  /** The periods stored under consecutive fresh ids, in order. */
  function Insert(s: Store, ps: seq<Period>): (r: Store)
    ensures r.items == s.items && r.nextItemId == s.nextItemId
    ensures r.nextPeriodId == s.nextPeriodId + |ps|
    decreases |ps|
  {
    if |ps| == 0 then s
    else Insert(s.(periods := s.periods[s.nextPeriodId := ps[0]], nextPeriodId := s.nextPeriodId + 1), ps[1..])
  }

  /** The store after inserting the first period. */
  function InsertFirst(s: Store, ps: seq<Period>): Store
    requires |ps| > 0
  {
    s.(periods := s.periods[s.nextPeriodId := ps[0]], nextPeriodId := s.nextPeriodId + 1)
  }

  /** The inserted ids are the next `|ps|` ones; the stored periods are kept. */
  lemma {:induction false} InsertKeys(s: Store, ps: seq<Period>)
    requires forall id | id in s.periods :: id < s.nextPeriodId
    ensures forall id :: id in Insert(s, ps).periods <==>
      id in s.periods || s.nextPeriodId <= id < s.nextPeriodId + |ps|
    ensures forall id | id in s.periods :: Insert(s, ps).periods[id] == s.periods[id]
    decreases |ps|
  {
    if |ps| > 0 {
      var t := InsertFirst(s, ps);
      assert Insert(s, ps) == Insert(t, ps[1..]);
      InsertKeys(t, ps[1..]);
    }
  }

  /** The `i`-th period lies under the `i`-th fresh id. */
  lemma {:induction false} InsertAt(s: Store, ps: seq<Period>, i: int)
    requires forall id | id in s.periods :: id < s.nextPeriodId
    requires 0 <= i < |ps|
    ensures s.nextPeriodId + i in Insert(s, ps).periods
    ensures Insert(s, ps).periods[s.nextPeriodId + i] == ps[i]
    decreases i
  {
    var t := InsertFirst(s, ps);
    assert Insert(s, ps) == Insert(t, ps[1..]);
    if i == 0 {
      InsertKeys(t, ps[1..]);
    } else {
      InsertAt(t, ps[1..], i - 1);
    }
  }

  /** Periods numbered from the next id keep the store sound. */
  lemma {:induction false} InsertSound(s: Store, ps: seq<Period>)
    requires IsSound(s)
    requires forall i | 0 <= i < |ps| :: ps[i].periodId == s.nextPeriodId + i
    ensures IsSound(Insert(s, ps))
    decreases |ps|
  {
    if |ps| > 0 {
      var t := InsertFirst(s, ps);
      assert Insert(s, ps) == Insert(t, ps[1..]);
      assert forall i | 0 <= i < |ps| - 1 :: ps[1..][i] == ps[i + 1];
      InsertSound(t, ps[1..]);
    }
  }

  /** One new period per entry, in order, under consecutive fresh ids; the
      stored periods stay as they were. A failure leaves nothing stored, as
      the transaction is not committed. */
  function AddDrafts(s: Store, drafts: seq<PeriodValues>, itemId: int): (r: Result<Store, TxError>)
    requires IsSound(s)
    ensures r.Ok? <==> forall i | 0 <= i < |drafts| :: IsSettable(drafts[i])
    ensures r.Ok? ==> IsSound(r.value)
    ensures r.Ok? ==> r.value.items == s.items && r.value.nextItemId == s.nextItemId
    ensures r.Ok? ==> r.value.nextPeriodId == s.nextPeriodId + |drafts|
  {
    match DraftAll(drafts, s.nextPeriodId, itemId)
    case Err(e) => Err(e)
    case Ok(ps) =>
      DraftAllContents(drafts, s.nextPeriodId, itemId);
      InsertSound(s, ps);
      Ok(Insert(s, ps))
  }

  /** The new periods take the next `|drafts|` ids and the stored periods are
      kept as they were. */
  lemma AddDraftsKeeps(s: Store, drafts: seq<PeriodValues>, itemId: int)
    requires IsSound(s) && AddDrafts(s, drafts, itemId).Ok?
    ensures var t := AddDrafts(s, drafts, itemId).value;
      && (forall id :: id in t.periods <==> id in s.periods || s.nextPeriodId <= id < s.nextPeriodId + |drafts|)
      && (forall id | id in s.periods :: t.periods[id] == s.periods[id])
    ensures s.periods.Keys <= AddDrafts(s, drafts, itemId).value.periods.Keys
  {
    InsertKeys(s, DraftAll(drafts, s.nextPeriodId, itemId).value);
  }

  /** The period under a fresh id carries the entry of its position. */
  lemma AddDraftsAt(s: Store, drafts: seq<PeriodValues>, itemId: int, id: int)
    requires IsSound(s) && AddDrafts(s, drafts, itemId).Ok?
    requires s.nextPeriodId <= id < s.nextPeriodId + |drafts|
    ensures id in AddDrafts(s, drafts, itemId).value.periods
    ensures IsDraftOf(AddDrafts(s, drafts, itemId).value.periods[id], drafts[id - s.nextPeriodId], itemId)
  {
    AddDraftsContents(s, drafts, itemId);
    HoldsDraftsAt(AddDrafts(s, drafts, itemId).value, s.nextPeriodId, drafts, itemId, id);
  }

  lemma HoldsDraftsAt(t: Store, first: int, drafts: seq<PeriodValues>, itemId: int, pid: int)
    requires HoldsDrafts(t, first, drafts, itemId) && first <= pid < first + |drafts|
    ensures pid in t.periods && IsDraftOf(t.periods[pid], drafts[pid - first], itemId)
  {
  }

  /** The next `|drafts|` ids hold one period per entry, in order, each
      carrying its entry's values and belonging to the item. */
  lemma AddDraftsContents(s: Store, drafts: seq<PeriodValues>, itemId: int)
    requires IsSound(s) && AddDrafts(s, drafts, itemId).Ok?
    ensures HoldsDrafts(AddDrafts(s, drafts, itemId).value, s.nextPeriodId, drafts, itemId)
  {
    var ps := DraftAll(drafts, s.nextPeriodId, itemId).value;
    assert AddDrafts(s, drafts, itemId).value == Insert(s, ps);
    DraftAllContents(drafts, s.nextPeriodId, itemId);
    InsertHolds(s, ps, drafts, itemId);
  }

  lemma InsertHolds(s: Store, ps: seq<Period>, drafts: seq<PeriodValues>, itemId: int)
    requires forall id | id in s.periods :: id < s.nextPeriodId
    requires |ps| == |drafts| && forall i | 0 <= i < |ps| :: IsDraftOf(ps[i], drafts[i], itemId)
    ensures HoldsDrafts(Insert(s, ps), s.nextPeriodId, drafts, itemId)
  {
    var t := Insert(s, ps);
    InsertAll(s, ps);
    StoredHolds(t, s.nextPeriodId, ps, drafts, itemId);
  }

  /** The ids from `first` on hold the periods of `ps`, in order. */
  predicate Stores(t: Store, first: int, ps: seq<Period>)
  {
    forall pid | first <= pid < first + |ps| :: pid in t.periods && t.periods[pid] == ps[pid - first]
  }

  /** Every inserted period lies under its fresh id. */
  lemma InsertAll(s: Store, ps: seq<Period>)
    requires forall id | id in s.periods :: id < s.nextPeriodId
    ensures Stores(Insert(s, ps), s.nextPeriodId, ps)
  {
    forall pid | s.nextPeriodId <= pid < s.nextPeriodId + |ps|
      ensures pid in Insert(s, ps).periods && Insert(s, ps).periods[pid] == ps[pid - s.nextPeriodId]
    {
      InsertAt(s, ps, pid - s.nextPeriodId);
    }
  }

  lemma StoredHolds(t: Store, first: int, ps: seq<Period>, drafts: seq<PeriodValues>, itemId: int)
    requires |ps| == |drafts| && forall i | 0 <= i < |ps| :: IsDraftOf(ps[i], drafts[i], itemId)
    requires Stores(t, first, ps)
    ensures HoldsDrafts(t, first, drafts, itemId)
  {
  }

  /** `execute` of the creation: the item is stored under the next item id,
      then one period per opening-hours entry, in input order, each belonging
      to the new item. */
  function ExecuteCreate(s: Store, parsed: ParsedItem): (r: Result<(Store, int), TxError>)
    requires IsSound(s)
    ensures r.Ok? <==> forall i | 0 <= i < |parsed.periods| :: IsSettable(parsed.periods[i])
    ensures r.Ok? ==> r.value.1 == s.nextItemId && r.value.1 !in s.items
    ensures r.Ok? ==> r.value.0.items == s.items + {r.value.1} && IsSound(r.value.0)
    ensures r.Ok? ==> r.value.0.nextPeriodId == s.nextPeriodId + |parsed.periods|
  {
    var id := s.nextItemId;
    match AddDrafts(s.(items := s.items + {id}, nextItemId := id + 1), parsed.periods, id)
    case Err(e) => Err(e)
    case Ok(t) => Ok((t, id))
  }

  /** Creating an item keeps the stored periods as they were and adds no other. */
  lemma ExecuteCreateKeeps(s: Store, parsed: ParsedItem)
    requires IsSound(s) && ExecuteCreate(s, parsed).Ok?
    ensures var t := ExecuteCreate(s, parsed).value.0;
      && (forall pid | pid in s.periods :: pid in t.periods && t.periods[pid] == s.periods[pid])
      && (forall pid | pid in t.periods :: pid in s.periods || s.nextPeriodId <= pid < t.nextPeriodId)
  {
    var id := s.nextItemId;
    AddDraftsKeeps(s.(items := s.items + {id}, nextItemId := id + 1), parsed.periods, id);
  }

  /** The created item's periods: the fresh ids hold the parsed entries in
      order, each belonging to the new item. */
  lemma ExecuteCreatePeriods(s: Store, parsed: ParsedItem)
    requires IsSound(s) && ExecuteCreate(s, parsed).Ok?
    ensures HoldsDrafts(ExecuteCreate(s, parsed).value.0, s.nextPeriodId, parsed.periods, s.nextItemId)
  {
    var id := s.nextItemId;
    var created := s.(items := s.items + {id}, nextItemId := id + 1);
    assert ExecuteCreate(s, parsed).value.0 == AddDrafts(created, parsed.periods, id).value;
    AddDraftsContents(created, parsed.periods, id);
  }

  /** The period under a fresh id carries the parsed entry of its position. */
  lemma ExecuteCreateAt(s: Store, parsed: ParsedItem, pid: int)
    requires IsSound(s) && ExecuteCreate(s, parsed).Ok?
    requires s.nextPeriodId <= pid < s.nextPeriodId + |parsed.periods|
    ensures pid in ExecuteCreate(s, parsed).value.0.periods
    ensures IsDraftOf(ExecuteCreate(s, parsed).value.0.periods[pid], parsed.periods[pid - s.nextPeriodId], s.nextItemId)
  {
    ExecuteCreatePeriods(s, parsed);
    HoldsDraftsAt(ExecuteCreate(s, parsed).value.0, s.nextPeriodId, parsed.periods, s.nextItemId, pid);
  }

  /** `CreateItemTransaction`: the constructor checks the body, then `execute`
      runs on what it read. The check is the corrected one, which needs all
      eleven keys; the program's own ten-key threshold is in
      `CreateAsWrittenAcceptsIncomplete`. */
  function CreateItem(s: Store, body: seq<(string, Json)>): (r: Result<(Store, int), TxError>)
    requires IsSound(s)
    ensures Parse(CreateRules, body).Err? ==> r == Err(BodyErr(Parse(CreateRules, body).error))
    ensures Parse(CreateRules, body).Ok? ==> r == ExecuteCreate(s, Parse(CreateRules, body).value)
  {
    match Parse(CreateRules, body)
    case Err(e) => Err(BodyErr(e))
    case Ok(parsed) => ExecuteCreate(s, parsed)
  }

  // ---------------------------------------------------------------------------
  // Updating a stored period
  // ---------------------------------------------------------------------------

  function Lift(r: Result<Period, PeriodError>): (l: Result<Period, TxError>)
    ensures r.Ok? ==> l == Ok(r.value)
    ensures r.Err? ==> l == Err(RangeErr(r.error))
  {
    match r
    case Ok(p) => Ok(p)
    case Err(e) => Err(RangeErr(e))
  }

  /** The period id an entry names, when it is a number among `owned`. */
  predicate NamesOwned(values: PeriodValues, owned: set<int>)
  {
    ValueOf(values, PeriodId).JNum? && ValueOf(values, PeriodId).n in owned
  }

  /** `updatePeriod`: the item's period whose id equals the sent one, compared
      strictly, takes the sent days, hours and minutes through its setters, in
      the order start day, start hour, start minutes, end day, end hour, end
      minutes. Nothing else in the store changes. */
  function UpdatePeriod(s: Store, owned: set<int>, values: PeriodValues): (r: Result<Store, TxError>)
    requires owned <= s.periods.Keys
    ensures !NamesOwned(values, owned) ==> r == Err(BodyErr(InvalidParamInBody(PeriodId)))
    ensures r.Ok? <==> NamesOwned(values, owned) && IsSettable(values)
    ensures r.Ok? ==> ValueOf(values, PeriodId).n in r.value.periods
    ensures r.Ok? ==> var id := ValueOf(values, PeriodId).n; var q := r.value.periods[id];
      && r.value == s.(periods := s.periods[id := q])
      && Carries(q, values) && IsValid(q)
      && q.periodId == s.periods[id].periodId && q.itemId == s.periods[id].itemId
  {
    if !NamesOwned(values, owned) then Err(BodyErr(InvalidParamInBody(PeriodId)))
    else
      var id := ValueOf(values, PeriodId).n;
      var startDay :- DayOf(values, PeriodStartDay);
      var p1 := SetStartDay(s.periods[id], startDay);
      var startHour :- IntOf(values, PeriodStartHour);
      var p2 :- Lift(SetStartHour(p1, startHour));
      var startMinutes :- IntOf(values, PeriodStartMinutes);
      var p3 :- Lift(SetStartMinutes(p2, startMinutes));
      var endDay :- DayOf(values, PeriodEndDay);
      var p4 := SetEndDay(p3, endDay);
      var endHour :- IntOf(values, PeriodEndHour);
      var p5 :- Lift(SetEndHour(p4, endHour));
      var endMinutes :- IntOf(values, PeriodEndMinutes);
      var p6 :- Lift(SetEndMinutes(p5, endMinutes));
      Ok(s.(periods := s.periods[id := p6]))
  }

  // ---------------------------------------------------------------------------
  // Reconciling an item's periods
  // ---------------------------------------------------------------------------

  /** An entry asking for a new period: its id is the string `new`, compared strictly. */
  predicate IsNew(values: PeriodValues)
  {
    ValueOf(values, PeriodId) == JStr(PeriodIdCreateNewValue)
  }

  /** An entry the reconciliation accepts: in-range values, and either the
      id `new` or the id of an owned period. */
  predicate IsAccepted(values: PeriodValues, owned: set<int>)
  {
    IsSettable(values) && (IsNew(values) || NamesOwned(values, owned))
  }

  /** The periods stored for an item. */
  function PeriodsOf(s: Store, itemId: int): (r: set<int>)
    ensures forall id :: id in r <==> id in s.periods && s.periods[id].itemId == itemId
  {
    set id | id in s.periods && s.periods[id].itemId == itemId
  }

  /** The loop of `execute`: front to back, an entry naming an id updates that
      period and records the id; a `new` entry inserts a period for the item.
      The first entry that fails aborts the whole transaction. */
  function Reconcile(s: Store, owned: set<int>, entries: seq<PeriodValues>, itemId: int): (r: Result<(Store, seq<int>), TxError>)
    requires IsSound(s) && owned <= s.periods.Keys
    ensures r.Ok? ==> IsSound(r.value.0) && owned <= r.value.0.periods.Keys
    ensures r.Ok? ==> r.value.0.items == s.items && r.value.0.nextItemId == s.nextItemId
    decreases |entries|
  {
    if |entries| == 0 then Ok((s, []))
    else
      var values := entries[0];
      if !IsNew(values) then
        var t :- UpdatePeriod(s, owned, values);
        var rest :- Reconcile(t, owned, entries[1..], itemId);
        Ok((rest.0, [ValueOf(values, PeriodId).n] + rest.1))
      else
        var t :- AddDrafts(s, [values], itemId);
        AddDraftsKeeps(s, [values], itemId);
        assert owned <= t.periods.Keys;
        Reconcile(t, owned, entries[1..], itemId)
  }

  /** The store after the first entry, when it is accepted. */
  function AfterEntry(s: Store, owned: set<int>, values: PeriodValues, itemId: int): (t: Store)
    requires IsSound(s) && owned <= s.periods.Keys && IsAccepted(values, owned)
    ensures IsSound(t) && owned <= t.periods.Keys
  {
    if !IsNew(values) then UpdatePeriod(s, owned, values).value
    else
      AddDraftsKeeps(s, [values], itemId);
      assert owned <= AddDrafts(s, [values], itemId).value.periods.Keys;
      AddDrafts(s, [values], itemId).value
  }

  /** The id an entry records: none for a new period. */
  function IdsOf(values: PeriodValues): seq<int>
  {
    if IsNew(values) || !ValueOf(values, PeriodId).JNum? then [] else [ValueOf(values, PeriodId).n]
  }

  /** One step of the loop, spelled out. */
  lemma ReconcileStep(s: Store, owned: set<int>, entries: seq<PeriodValues>, itemId: int)
    requires IsSound(s) && owned <= s.periods.Keys && |entries| > 0
    ensures !IsAccepted(entries[0], owned) ==> Reconcile(s, owned, entries, itemId).Err?
    ensures IsAccepted(entries[0], owned) ==>
      var rest := Reconcile(AfterEntry(s, owned, entries[0], itemId), owned, entries[1..], itemId);
      && (rest.Err? <==> Reconcile(s, owned, entries, itemId).Err?)
      && (rest.Ok? ==> Reconcile(s, owned, entries, itemId).value.0 == rest.value.0)
      && (rest.Ok? ==> Reconcile(s, owned, entries, itemId).value.1 == IdsOf(entries[0]) + rest.value.1)
      && (rest.Err? ==> Reconcile(s, owned, entries, itemId) == Err(rest.error))
  {
  }

  /** A first entry naming a period the item does not own is refused. */
  lemma ReconcileRejectsFirst(s: Store, owned: set<int>, entries: seq<PeriodValues>, itemId: int)
    requires IsSound(s) && owned <= s.periods.Keys
    requires |entries| > 0 && !IsNew(entries[0]) && !NamesOwned(entries[0], owned)
    ensures Reconcile(s, owned, entries, itemId) == Err(BodyErr(InvalidParamInBody(PeriodId)))
  {
    assert UpdatePeriod(s, owned, entries[0]) == Err(BodyErr(InvalidParamInBody(PeriodId)));
  }

  /** The reconciliation succeeds exactly when every entry is accepted. */
  lemma {:induction false} ReconcileAccepts(s: Store, owned: set<int>, entries: seq<PeriodValues>, itemId: int)
    requires IsSound(s) && owned <= s.periods.Keys
    ensures Reconcile(s, owned, entries, itemId).Ok? <==> forall i | 0 <= i < |entries| :: IsAccepted(entries[i], owned)
    decreases |entries|
  {
    if |entries| > 0 {
      ReconcileStep(s, owned, entries, itemId);
      assert forall i | 1 <= i < |entries| :: entries[i] == entries[1..][i - 1];
      if IsAccepted(entries[0], owned) {
        ReconcileAccepts(AfterEntry(s, owned, entries[0], itemId), owned, entries[1..], itemId);
      }
    }
  }

  /** An entry that names the stored period `id` for an update. */
  predicate Names(values: PeriodValues, id: int)
  {
    !IsNew(values) && ValueOf(values, PeriodId) == JNum(id)
  }

  /** Some entry names the stored period `id`. */
  predicate Named(entries: seq<PeriodValues>, id: int)
  {
    exists i | 0 <= i < |entries| :: Names(entries[i], id)
  }

  /** The `i`-th entry is the last one naming `id`. */
  predicate IsLastNaming(entries: seq<PeriodValues>, id: int, i: int)
  {
    0 <= i < |entries| && Names(entries[i], id) && forall j | i < j < |entries| :: !Names(entries[j], id)
  }

  /** The entries asking for new periods, in order. */
  function NewEntries(entries: seq<PeriodValues>): (r: seq<PeriodValues>)
    ensures |r| <= |entries|
    ensures forall i | 0 <= i < |r| :: IsNew(r[i])
  {
    if |entries| == 0 then []
    else if IsNew(entries[0]) then [entries[0]] + NewEntries(entries[1..])
    else NewEntries(entries[1..])
  }

  /** What an accepted entry does to the store: an update rewrites the period
      it names and nothing else; a new entry adds one period under the next id. */
  lemma AfterEntryFacts(s: Store, owned: set<int>, values: PeriodValues, itemId: int)
    requires IsSound(s) && owned <= s.periods.Keys && IsAccepted(values, owned)
    ensures var t := AfterEntry(s, owned, values, itemId);
      && (forall id | id in s.periods && !Names(values, id) :: id in t.periods && t.periods[id] == s.periods[id])
      && (forall id | id in s.periods :: id in t.periods && t.periods[id].itemId == s.periods[id].itemId)
    ensures var t := AfterEntry(s, owned, values, itemId);
      !IsNew(values) ==>
        && t.nextPeriodId == s.nextPeriodId && t.periods.Keys == s.periods.Keys
        && var id := ValueOf(values, PeriodId).n; Carries(t.periods[id], values) && IsValid(t.periods[id])
    ensures var t := AfterEntry(s, owned, values, itemId);
      IsNew(values) ==>
        && t.nextPeriodId == s.nextPeriodId + 1
        && (forall id :: id in t.periods <==> id in s.periods || id == s.nextPeriodId)
        && IsDraftOf(t.periods[s.nextPeriodId], values, itemId)
  {
    if IsNew(values) {
      AddDraftsKeeps(s, [values], itemId);
      AddDraftsAt(s, [values], itemId, s.nextPeriodId);
    }
  }

  /** The entries after the first name `id` when one of them, past the first, does. */
  lemma NamedTail(entries: seq<PeriodValues>, id: int)
    requires |entries| > 0
    ensures Named(entries[1..], id) <==> exists i | 1 <= i < |entries| :: Names(entries[i], id)
  {
    var tail := entries[1..];
    if Named(tail, id) {
      var i :| 0 <= i < |tail| && Names(tail[i], id);
      assert Names(entries[i + 1], id);
    }
    if exists i | 1 <= i < |entries| :: Names(entries[i], id) {
      var i :| 1 <= i < |entries| && Names(entries[i], id);
      assert Names(tail[i - 1], id);
    }
  }

  /** An accepted entry names only an owned period. */
  lemma NamedOwned(s: Store, owned: set<int>, entries: seq<PeriodValues>, itemId: int)
    requires IsSound(s) && owned <= s.periods.Keys && Reconcile(s, owned, entries, itemId).Ok?
    ensures forall id | Named(entries, id) :: id in owned
  {
    ReconcileAccepts(s, owned, entries, itemId);
    forall id | Named(entries, id) ensures id in owned {
      var i :| 0 <= i < |entries| && Names(entries[i], id);
      assert IsAccepted(entries[i], owned);
    }
  }

  /** The recorded ids are exactly those the entries name. */
  lemma {:induction false} ReconcileIds(s: Store, owned: set<int>, entries: seq<PeriodValues>, itemId: int)
    requires IsSound(s) && owned <= s.periods.Keys && Reconcile(s, owned, entries, itemId).Ok?
    ensures forall id :: id in Reconcile(s, owned, entries, itemId).value.1 <==> Named(entries, id)
    decreases |entries|
  {
    if |entries| > 0 {
      ReconcileStep(s, owned, entries, itemId);
      var t := AfterEntry(s, owned, entries[0], itemId);
      var tail := entries[1..];
      ReconcileIds(t, owned, tail, itemId);
      var ids := Reconcile(s, owned, entries, itemId).value.1;
      assert ids == IdsOf(entries[0]) + Reconcile(t, owned, tail, itemId).value.1;
      forall id ensures id in ids <==> Named(entries, id) {
        if Named(entries, id) {
          var i :| 0 <= i < |entries| && Names(entries[i], id);
          if i > 0 { assert Names(tail[i - 1], id); }
        }
        if Named(tail, id) {
          var i :| 0 <= i < |tail| && Names(tail[i], id);
          assert Names(entries[i + 1], id);
        }
      }
    }
  }

  /** A stored period no entry names is left as it was; every stored period
      keeps its item. */
  lemma {:induction false} ReconcileKeeps(s: Store, owned: set<int>, entries: seq<PeriodValues>, itemId: int)
    requires IsSound(s) && owned <= s.periods.Keys && Reconcile(s, owned, entries, itemId).Ok?
    ensures var t := Reconcile(s, owned, entries, itemId).value.0;
      && (forall id | id in s.periods && !Named(entries, id) :: id in t.periods && t.periods[id] == s.periods[id])
      && (forall id | id in s.periods :: id in t.periods && t.periods[id].itemId == s.periods[id].itemId)
    decreases |entries|
  {
    if |entries| > 0 {
      ReconcileStep(s, owned, entries, itemId);
      var t := AfterEntry(s, owned, entries[0], itemId);
      var tail := entries[1..];
      AfterEntryFacts(s, owned, entries[0], itemId);
      ReconcileKeeps(t, owned, tail, itemId);
      forall id | id in s.periods && !Named(entries, id) ensures !Named(tail, id) && !Names(entries[0], id) {
        NamedTail(entries, id);
      }
    }
  }

  /** The period an entry names last ends up holding that entry's values, in range. */
  lemma {:induction false} ReconcileLast(s: Store, owned: set<int>, entries: seq<PeriodValues>, itemId: int, id: int, i: int)
    requires IsSound(s) && owned <= s.periods.Keys && Reconcile(s, owned, entries, itemId).Ok?
    requires IsLastNaming(entries, id, i)
    ensures var t := Reconcile(s, owned, entries, itemId).value.0;
      id in t.periods && Carries(t.periods[id], entries[i]) && IsValid(t.periods[id])
    decreases |entries|
  {
    ReconcileStep(s, owned, entries, itemId);
    var t := AfterEntry(s, owned, entries[0], itemId);
    var tail := entries[1..];
    AfterEntryFacts(s, owned, entries[0], itemId);
    if i == 0 {
      NamedOwned(s, owned, entries, itemId);
      assert Named(entries, id);
      ReconcileKeeps(t, owned, tail, itemId);
      NamedTail(entries, id);
    } else {
      assert IsLastNaming(tail, id, i - 1) by {
        forall j | i - 1 < j < |tail| ensures !Names(tail[j], id) { assert tail[j] == entries[j + 1]; }
      }
      ReconcileLast(t, owned, tail, itemId, id, i - 1);
    }
  }

  /** The reconciliation adds one period per new entry, under the next ids,
      and removes none. */
  lemma {:induction false} ReconcileFresh(s: Store, owned: set<int>, entries: seq<PeriodValues>, itemId: int)
    requires IsSound(s) && owned <= s.periods.Keys && Reconcile(s, owned, entries, itemId).Ok?
    ensures var t := Reconcile(s, owned, entries, itemId).value.0;
      && t.nextPeriodId == s.nextPeriodId + |NewEntries(entries)|
      && (forall id :: id in t.periods <==> id in s.periods || s.nextPeriodId <= id < t.nextPeriodId)
    decreases |entries|
  {
    if |entries| > 0 {
      ReconcileStep(s, owned, entries, itemId);
      var t := AfterEntry(s, owned, entries[0], itemId);
      AfterEntryFacts(s, owned, entries[0], itemId);
      ReconcileFresh(t, owned, entries[1..], itemId);
    }
  }

  /** The `k`-th new entry's period lies under the `k`-th fresh id and belongs
      to the item. */
  lemma {:induction false} ReconcileNewAt(s: Store, owned: set<int>, entries: seq<PeriodValues>, itemId: int, pid: int)
    requires IsSound(s) && owned <= s.periods.Keys && Reconcile(s, owned, entries, itemId).Ok?
    requires s.nextPeriodId <= pid < s.nextPeriodId + |NewEntries(entries)|
    ensures var t := Reconcile(s, owned, entries, itemId).value.0;
      pid in t.periods && IsDraftOf(t.periods[pid], NewEntries(entries)[pid - s.nextPeriodId], itemId)
    decreases |entries|
  {
    ReconcileStep(s, owned, entries, itemId);
    var t := AfterEntry(s, owned, entries[0], itemId);
    var tail := entries[1..];
    AfterEntryNext(s, owned, entries[0], itemId);
    if !IsNew(entries[0]) {
      assert NewEntries(entries) == NewEntries(tail);
      ReconcileNewAt(t, owned, tail, itemId, pid);
    } else if pid == s.nextPeriodId {
      NewAtFirst(s, owned, entries, itemId);
    } else {
      assert NewEntries(entries) == [entries[0]] + NewEntries(tail);
      ReconcileNewAt(t, owned, tail, itemId, pid);
    }
  }

  /** An accepted entry uses one period id exactly when it is `new`. */
  lemma AfterEntryNext(s: Store, owned: set<int>, values: PeriodValues, itemId: int)
    requires IsSound(s) && owned <= s.periods.Keys && IsAccepted(values, owned)
    ensures AfterEntry(s, owned, values, itemId).nextPeriodId == s.nextPeriodId + (if IsNew(values) then 1 else 0)
  {
    AfterEntryFacts(s, owned, values, itemId);
  }

  /** A first `new` entry's period, under the first fresh id, survives the
      rest of the loop: the later entries name only owned ids. */
  lemma NewAtFirst(s: Store, owned: set<int>, entries: seq<PeriodValues>, itemId: int)
    requires IsSound(s) && owned <= s.periods.Keys && Reconcile(s, owned, entries, itemId).Ok?
    requires |entries| > 0 && IsNew(entries[0])
    ensures var t := Reconcile(s, owned, entries, itemId).value.0;
      s.nextPeriodId in t.periods && IsDraftOf(t.periods[s.nextPeriodId], entries[0], itemId)
  {
    ReconcileStep(s, owned, entries, itemId);
    var t := AfterEntry(s, owned, entries[0], itemId);
    var tail := entries[1..];
    AfterEntryFacts(s, owned, entries[0], itemId);
    NamedOwned(t, owned, tail, itemId);
    ReconcileKeeps(t, owned, tail, itemId);
    assert s.nextPeriodId !in owned;
  }

  /** An entry naming a period the item does not own stops the loop with
      `InvalidParamInBody` on the period id, once every entry before it went through. */
  lemma {:induction false} ReconcileRejectsUnknown(s: Store, owned: set<int>, entries: seq<PeriodValues>, itemId: int, i: int)
    requires IsSound(s) && owned <= s.periods.Keys
    requires 0 <= i < |entries| && AcceptedBefore(entries, owned, i)
    requires !IsNew(entries[i]) && !NamesOwned(entries[i], owned)
    ensures Reconcile(s, owned, entries, itemId) == Err(BodyErr(InvalidParamInBody(PeriodId)))
    decreases i
  {
    if i > 0 {
      AcceptedBeforeTail(entries, owned, i);
      ReconcileStep(s, owned, entries, itemId);
      ReconcileRejectsUnknown(AfterEntry(s, owned, entries[0], itemId), owned, entries[1..], itemId, i - 1);
    } else {
      ReconcileRejectsFirst(s, owned, entries, itemId);
    }
  }

  /** Every entry before the `i`-th is accepted. */
  predicate AcceptedBefore(entries: seq<PeriodValues>, owned: set<int>, i: int)
    requires 0 <= i <= |entries|
  {
    forall j | 0 <= j < i :: IsAccepted(entries[j], owned)
  }

  lemma AcceptedBeforeTail(entries: seq<PeriodValues>, owned: set<int>, i: int)
    requires 0 < i <= |entries| && AcceptedBefore(entries, owned, i)
    ensures IsAccepted(entries[0], owned) && AcceptedBefore(entries[1..], owned, i - 1)
  {
    assert IsAccepted(entries[0], owned);
    forall j | 0 <= j < i - 1
      ensures IsAccepted(entries[1..][j], owned)
    {
      assert entries[1..][j] == entries[j + 1];
    }
  }

  // ---------------------------------------------------------------------------
  // The update transaction
  // ---------------------------------------------------------------------------

  /** The deletion loop: every period loaded for the item before the loop and
      not recorded as updated is removed. Periods the loop created were not
      loaded, so they stay. */
  function RemoveUnreferenced(s: Store, owned: set<int>, ids: seq<int>): (r: Store)
    ensures r.items == s.items && r.nextItemId == s.nextItemId && r.nextPeriodId == s.nextPeriodId
    ensures forall id :: id in r.periods <==> id in s.periods && (id !in owned || id in ids)
    ensures forall id | id in r.periods :: r.periods[id] == s.periods[id]
    ensures IsSound(s) ==> IsSound(r)
  {
    s.(periods := map id | id in s.periods && (id !in owned || id in ids) :: s.periods[id])
  }

  /** `execute` of the update, for the periods: the item is looked up, its
      periods loaded, the entries reconciled, the unreferenced periods removed.
      The item's own fields are not written (see the README). */
  function ExecuteUpdate(s: Store, itemId: int, entries: seq<PeriodValues>): (r: Result<Store, TxError>)
    requires IsSound(s)
    ensures itemId !in s.items ==> r == Err(ItemNotFound(itemId))
    ensures r.Ok? <==> itemId in s.items && forall i | 0 <= i < |entries| :: IsAccepted(entries[i], PeriodsOf(s, itemId))
    ensures r.Ok? ==> IsSound(r.value) && r.value.items == s.items && r.value.nextItemId == s.nextItemId
  {
    if itemId !in s.items then Err(ItemNotFound(itemId))
    else
      var owned := PeriodsOf(s, itemId);
      ReconcileAccepts(s, owned, entries, itemId);
      var (t, ids) :- Reconcile(s, owned, entries, itemId);
      Ok(RemoveUnreferenced(t, owned, ids))
  }

  /** A successful update spelled out. */
  lemma ExecuteUpdateStep(s: Store, itemId: int, entries: seq<PeriodValues>)
    requires IsSound(s) && ExecuteUpdate(s, itemId, entries).Ok?
    ensures Reconcile(s, PeriodsOf(s, itemId), entries, itemId).Ok?
    ensures var rec := Reconcile(s, PeriodsOf(s, itemId), entries, itemId).value;
      ExecuteUpdate(s, itemId, entries).value == RemoveUnreferenced(rec.0, PeriodsOf(s, itemId), rec.1)
  {
  }

  /** After an update the stored periods are: those of other items, unchanged;
      those of the item that some entry names; and one fresh period per new
      entry. Every other period of the item is gone. */
  lemma ExecuteUpdateKeys(s: Store, itemId: int, entries: seq<PeriodValues>)
    requires IsSound(s) && ExecuteUpdate(s, itemId, entries).Ok?
    ensures var u := ExecuteUpdate(s, itemId, entries).value;
      && u.nextPeriodId == s.nextPeriodId + |NewEntries(entries)|
      && forall id :: id in u.periods <==>
           || (id in s.periods && (s.periods[id].itemId != itemId || Named(entries, id)))
           || s.nextPeriodId <= id < u.nextPeriodId
  {
    var owned := PeriodsOf(s, itemId);
    ExecuteUpdateStep(s, itemId, entries);
    ReconcileFresh(s, owned, entries, itemId);
    ReconcileIds(s, owned, entries, itemId);
    NamedOwned(s, owned, entries, itemId);
  }

  /** The periods of other items are left exactly as they were. */
  lemma ExecuteUpdateKeepsOthers(s: Store, itemId: int, entries: seq<PeriodValues>)
    requires IsSound(s) && ExecuteUpdate(s, itemId, entries).Ok?
    ensures var u := ExecuteUpdate(s, itemId, entries).value;
      forall id | id in s.periods && s.periods[id].itemId != itemId :: id in u.periods && u.periods[id] == s.periods[id]
  {
    var owned := PeriodsOf(s, itemId);
    ExecuteUpdateStep(s, itemId, entries);
    ReconcileKeeps(s, owned, entries, itemId);
    NamedOwned(s, owned, entries, itemId);
  }

  /** The period an entry names last holds that entry's days, hours and
      minutes, all in range, and still belongs to the item. */
  lemma ExecuteUpdateLast(s: Store, itemId: int, entries: seq<PeriodValues>, id: int, i: int)
    requires IsSound(s) && ExecuteUpdate(s, itemId, entries).Ok?
    requires IsLastNaming(entries, id, i)
    ensures var u := ExecuteUpdate(s, itemId, entries).value;
      && id in u.periods && Carries(u.periods[id], entries[i]) && IsValid(u.periods[id])
      && u.periods[id].itemId == itemId && u.periods[id].periodId == id
  {
    var owned := PeriodsOf(s, itemId);
    ExecuteUpdateStep(s, itemId, entries);
    NamedOwned(s, owned, entries, itemId);
    assert Named(entries, id);
    ReconcileLast(s, owned, entries, itemId, id, i);
    ReconcileKeeps(s, owned, entries, itemId);
    ReconcileIds(s, owned, entries, itemId);
  }

  /** The `k`-th new entry's period lies under the `k`-th fresh id and belongs
      to the item. */
  lemma ExecuteUpdateNewAt(s: Store, itemId: int, entries: seq<PeriodValues>, pid: int)
    requires IsSound(s) && ExecuteUpdate(s, itemId, entries).Ok?
    requires s.nextPeriodId <= pid < s.nextPeriodId + |NewEntries(entries)|
    ensures var u := ExecuteUpdate(s, itemId, entries).value;
      pid in u.periods && IsDraftOf(u.periods[pid], NewEntries(entries)[pid - s.nextPeriodId], itemId)
  {
    var owned := PeriodsOf(s, itemId);
    ExecuteUpdateStep(s, itemId, entries);
    ReconcileNewAt(s, owned, entries, itemId, pid);
    assert pid !in s.periods;
  }

  /** `UpdateItemTransaction`: the constructor checks the body with the update
      rules, then `execute` runs on the item named in the URL. */
  function UpdateItem(s: Store, itemId: int, body: seq<(string, Json)>): (r: Result<Store, TxError>)
    requires IsSound(s)
    ensures Parse(UpdateRules, body).Err? ==> r == Err(BodyErr(Parse(UpdateRules, body).error))
    ensures Parse(UpdateRules, body).Ok? ==> r == ExecuteUpdate(s, itemId, Parse(UpdateRules, body).value.periods)
  {
    match Parse(UpdateRules, body)
    case Err(e) => Err(BodyErr(e))
    case Ok(parsed) => ExecuteUpdate(s, itemId, parsed.periods)
  }
}
