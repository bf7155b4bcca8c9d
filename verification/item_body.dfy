/** Validation of a decoded item body: the accepted keys, the completeness check
    with the list of missing keys, the opening-hours list and the null checks.
    The same reading serves item creation and item update, which differ only in
    the keys they accept and in their thresholds (`Rules`). */
module ItemBodies {
  import opened Common
  import opened ApiInterface

  datatype BodyError =
    | InvalidParamInBody(key: string)
    | ParamsNotFoundInBody(missing: seq<string>, parent: string)
    | InvalidValueInBody(key: string, inPeriods: bool)
    | ListExpected(param: string)

  /** What an opening-hours entry must hold:
      - `periodKeys`: the period keys, in the order missing ones are reported;
      - `periodThreshold`: fewer distinct period keys than this is an error;
      - `periodNulls`: whether a null period value is an error. */
  datatype PeriodRules = PeriodRules(periodKeys: seq<string>, periodThreshold: nat, periodNulls: bool)

  /** What an item parser accepts:
      - `itemKeys`: the item keys, in the order missing ones are reported;
      - `itemThreshold`: fewer recognised item keys than this is an error;
      - `periods`: the rules for each opening-hours entry;
      - `notNullKeys`: item keys that may not be null, in checking order. */
  datatype Rules = Rules(itemKeys: seq<string>, itemThreshold: nat, periods: PeriodRules, notNullKeys: seq<string>)

  /** The values of one opening-hours entry by period key. */
  type PeriodValues = map<string, Json>

  /** The fields of a valid body: item values by key (opening hours apart) and
      one record per opening-hours entry, in order. */
  datatype ParsedItem = ParsedItem(fields: map<string, Json>, periods: seq<PeriodValues>)

  // ---------------------------------------------------------------------------
  // Missing keys (`array_diff`)
  // ---------------------------------------------------------------------------

  /** The keys of `keys` not in `found`, in the order of `keys`. */
  function Missing(keys: seq<string>, found: set<string>): (r: seq<string>)
    ensures forall k :: k in r <==> k in keys && k !in found
    ensures |r| <= |keys|
  {
    if |keys| == 0 then []
    else (if keys[0] in found then [] else [keys[0]]) + Missing(keys[1..], found)
  }

  /** The keys of a PHP array built from `entries`. */
  function KeysOf(body: seq<(string, Json)>): (r: set<string>)
    ensures forall k :: k in r <==> exists i | 0 <= i < |body| :: body[i].0 == k
  {
    set i | 0 <= i < |body| :: body[i].0
  }

  predicate DistinctKeys(body: seq<(string, Json)>)
  {
    forall i, j | 0 <= i < j < |body| :: body[i].0 != body[j].0
  }

  // ---------------------------------------------------------------------------
  // Opening hours
  // ---------------------------------------------------------------------------

  /** The period values of entry `index`, read key by key onto `acc`. The list
      check on the index runs inside the loop, so an empty entry skips it. */
  function ReadValues(rules: PeriodRules, index: Key, entries: seq<(Key, Json)>, acc: PeriodValues): (r: Result<PeriodValues, BodyError>)
    ensures r.Ok? ==> |entries| == 0 || IsNumericKey(index)
    ensures r.Ok? ==> forall i | 0 <= i < |entries| ::
      entries[i].0.KStr? && entries[i].0.s in rules.periodKeys && entries[i].0.s in r.value
      && (rules.periodNulls ==> entries[i].1 != JNull)
    ensures r.Ok? ==> forall k | k in r.value :: k in acc || exists i | 0 <= i < |entries| :: entries[i].0 == KStr(k)
    ensures r.Err? && r.error.ListExpected? ==> r.error.param == ItemOpeningHours && !IsNumericKey(index) && |entries| > 0
    ensures r.Err? && r.error.InvalidParamInBody? ==> exists i | 0 <= i < |entries| ::
      KeyText(entries[i].0) == r.error.key && !(entries[i].0.KStr? && entries[i].0.s in rules.periodKeys)
    ensures r.Ok? ==> acc.Keys <= r.value.Keys
    ensures r.Err? && r.error.InvalidValueInBody? ==>
      rules.periodNulls && r.error.inPeriods && exists i | 0 <= i < |entries| :: entries[i] == (KStr(r.error.key), JNull)
    ensures r.Err? ==> !r.error.ParamsNotFoundInBody?
  {
    if |entries| == 0 then Ok(acc)
    else
      var (key, v) := entries[0];
      if !IsNumericKey(index) then Err(ListExpected(ItemOpeningHours))
      else if !(key.KStr? && key.s in rules.periodKeys) then Err(InvalidParamInBody(KeyText(key)))
      else if rules.periodNulls && v == JNull then Err(InvalidValueInBody(key.s, true))
      else
        var r := ReadValues(rules, index, entries[1..], acc[key.s := v]);
        assert forall i | 1 <= i < |entries| :: entries[i] == entries[1..][i - 1];
        r
  }

  /** One opening-hours entry; a value that is not an array reads as empty. */
  function ReadEntry(rules: PeriodRules, index: Key, entry: Json): (r: Result<PeriodValues, BodyError>)
    ensures r.Ok? ==> |r.value| >= rules.periodThreshold
    ensures r.Ok? ==> forall k | k in r.value :: k in rules.periodKeys
    ensures r.Err? && r.error.ParamsNotFoundInBody? ==>
      r.error.parent == ItemOpeningHours + "/" + KeyText(index)
      && forall k :: k in r.error.missing <==> k in rules.periodKeys && !EntryHasKey(entry, k)
    ensures r.Err? && r.error.InvalidValueInBody? ==> r.error.inPeriods
  {
    var values := if entry.JArr? then ReadValues(rules, index, entry.entries, map[]) else Ok(map[]);
    match values
    case Err(e) => Err(e)
    case Ok(vs) =>
      if |vs| < rules.periodThreshold then
        Err(ParamsNotFoundInBody(Missing(rules.periodKeys, vs.Keys), ItemOpeningHours + "/" + KeyText(index)))
      else Ok(vs)
  }

  predicate EntryHasKey(entry: Json, k: string)
  {
    entry.JArr? && exists i | 0 <= i < |entry.entries| :: entry.entries[i].0 == KStr(k)
  }

  /** The entries of the opening-hours list, one record each, in order; the first
      entry that fails decides the error. */
  function ReadEntries(rules: PeriodRules, entries: seq<(Key, Json)>): (r: Result<seq<PeriodValues>, BodyError>)
    ensures r.Ok? ==> |r.value| == |entries|
    ensures r.Ok? ==> forall i | 0 <= i < |entries| :: ReadEntry(rules, entries[i].0, entries[i].1) == Ok(r.value[i])
    ensures r.Err? ==> exists i | 0 <= i < |entries| :: ReadEntry(rules, entries[i].0, entries[i].1) == Err(r.error)
  {
    if |entries| == 0 then Ok([])
    else
      match ReadEntry(rules, entries[0].0, entries[0].1)
      case Err(e) => Err(e)
      case Ok(p) =>
        var rest := ReadEntries(rules, entries[1..]);
        assert forall i | 1 <= i < |entries| :: entries[i] == entries[1..][i - 1];
        if rest.Err? then rest else Ok([p] + rest.value)
  }

  /** `readPeriods`: an array is read entry by entry; anything else gives no periods. */
  function ReadPeriods(rules: PeriodRules, v: Json): (r: Result<seq<PeriodValues>, BodyError>)
    ensures !v.JArr? ==> r == Ok([])
    ensures v.JArr? ==> r == ReadEntries(rules, v.entries)
  {
    if v.JArr? then ReadEntries(rules, v.entries) else Ok([])
  }

  // ---------------------------------------------------------------------------
  // The item keys
  // ---------------------------------------------------------------------------

  /** What the key loop leaves behind: the item values, the periods when the
      opening hours were sent, and every key used, in order. */
  datatype Reading = Reading(fields: map<string, Json>, periods: Option<seq<PeriodValues>>, used: seq<string>)

  /** An entry the key loop throws on: a key no item has, or opening hours
      that cannot be read. */
  predicate IsBadEntry(rules: Rules, e: (string, Json))
  {
    e.0 !in rules.itemKeys || (e.0 == ItemOpeningHours && ReadPeriods(rules.periods, e.1).Err?)
  }

  /** The error the key loop throws on a bad entry. */
  function EntryError(rules: Rules, e: (string, Json)): BodyError
    requires IsBadEntry(rules, e)
  {
    if e.0 !in rules.itemKeys then InvalidParamInBody(e.0) else ReadPeriods(rules.periods, e.1).error
  }

  /** The loop over the body keys, in body order. */
  function ReadKeys(rules: Rules, body: seq<(string, Json)>): (r: Result<Reading, BodyError>)
    ensures r.Ok? <==> forall i | 0 <= i < |body| :: !IsBadEntry(rules, body[i])
    ensures r.Err? ==> exists j | 0 <= j < |body| :: IsBadEntry(rules, body[j]) && r.error == EntryError(rules, body[j])
    ensures r.Ok? ==> r.value.used == seq(|body|, i requires 0 <= i < |body| => body[i].0)
    ensures r.Err? && r.error.ParamsNotFoundInBody? ==> r.error.parent != ""
    ensures r.Err? && r.error.InvalidValueInBody? ==> r.error.inPeriods
  {
    if |body| == 0 then Ok(Reading(map[], None, []))
    else
      var (k, v) := body[0];
      if k !in rules.itemKeys then Err(InvalidParamInBody(k))
      else
        var read := if k == ItemOpeningHours then ReadPeriods(rules.periods, v) else Ok([]);
        if read.Err? then Err(read.error)
        else
          var tail := ReadKeys(rules, body[1..]);
          assert forall i | 1 <= i < |body| :: body[i] == body[1..][i - 1];
          match tail
          case Err(e) => Err(e)
          case Ok(rest) =>
            var fields := if k == ItemOpeningHours then rest.fields else map[k := v] + rest.fields;
            var periods := if rest.periods.Some? then rest.periods else if k == ItemOpeningHours then Some(read.value) else None;
            Ok(Reading(fields, periods, [k] + rest.used))
  }

  /** One step of the key loop, spelled out. */
  lemma ReadKeysStep(rules: Rules, body: seq<(string, Json)>)
    requires |body| > 0 && ReadKeys(rules, body).Ok?
    ensures ReadKeys(rules, body[1..]).Ok?
    ensures var r, rest := ReadKeys(rules, body).value, ReadKeys(rules, body[1..]).value;
      && r.fields == (if body[0].0 == ItemOpeningHours then rest.fields else map[body[0].0 := body[0].1] + rest.fields)
      && r.periods == (if rest.periods.Some? then rest.periods
                       else if body[0].0 == ItemOpeningHours then Some(ReadPeriods(rules.periods, body[0].1).value) else None)
  {
    assert forall i | 1 <= i < |body| :: body[i] == body[1..][i - 1];
  }

  /** The item values the loop keeps: one per key other than the opening hours,
      the value sent with it. */
  lemma {:induction false} ReadKeysFields(rules: Rules, body: seq<(string, Json)>)
    requires ReadKeys(rules, body).Ok?
    requires DistinctKeys(body)
    ensures ReadKeys(rules, body).value.fields.Keys == KeysOf(body) - {ItemOpeningHours}
    ensures forall i | 0 <= i < |body| && body[i].0 != ItemOpeningHours ::
      ReadKeys(rules, body).value.fields[body[i].0] == body[i].1
  {
    if |body| > 0 {
      var tail := body[1..];
      ReadKeysStep(rules, body);
      assert DistinctKeys(tail) by {
        assert forall i | 1 <= i < |body| :: body[i] == tail[i - 1];
      }
      ReadKeysFields(rules, tail);
      FieldsCons(body, ReadKeys(rules, body).value.fields, ReadKeys(rules, tail).value.fields);
    }
  }

  /** The keys of a body are its first key and those of the rest; with
      distinct keys the first is not among the rest. */
  lemma KeysCons(body: seq<(string, Json)>)
    requires |body| > 0
    ensures KeysOf(body) == {body[0].0} + KeysOf(body[1..])
    ensures DistinctKeys(body) ==> body[0].0 !in KeysOf(body[1..])
  {
    assert forall i | 1 <= i < |body| :: body[i] == body[1..][i - 1];
    if DistinctKeys(body) {
      forall i | 0 <= i < |body| - 1 ensures body[1..][i].0 != body[0].0 {
        assert body[1..][i] == body[i + 1];
      }
    }
  }

  /** Putting the first entry in front of the values kept for the rest keeps
      one value per key, the one sent. */
  lemma FieldsCons(body: seq<(string, Json)>, f: map<string, Json>, rf: map<string, Json>)
    requires |body| > 0 && DistinctKeys(body)
    requires f == (if body[0].0 == ItemOpeningHours then rf else map[body[0].0 := body[0].1] + rf)
    requires rf.Keys == KeysOf(body[1..]) - {ItemOpeningHours}
    requires forall i | 0 <= i < |body[1..]| && body[1..][i].0 != ItemOpeningHours :: rf[body[1..][i].0] == body[1..][i].1
    ensures f.Keys == KeysOf(body) - {ItemOpeningHours}
    ensures forall i | 0 <= i < |body| && body[i].0 != ItemOpeningHours :: f[body[i].0] == body[i].1
  {
    var tail := body[1..];
    KeysCons(body);
    forall i | 0 <= i < |body| && body[i].0 != ItemOpeningHours ensures f[body[i].0] == body[i].1 {
      if i > 0 { assert tail[i - 1] == body[i]; assert body[i].0 != body[0].0; }
    }
  }

  /** The periods the loop keeps: those read from the opening hours, if sent. */
  lemma {:induction false} ReadKeysPeriods(rules: Rules, body: seq<(string, Json)>)
    requires ReadKeys(rules, body).Ok?
    requires DistinctKeys(body)
    ensures ReadKeys(rules, body).value.periods.Some? <==> ItemOpeningHours in KeysOf(body)
    ensures forall i | 0 <= i < |body| && body[i].0 == ItemOpeningHours ::
      ReadKeys(rules, body).value.periods == Some(ReadPeriods(rules.periods, body[i].1).value)
  {
    if |body| > 0 {
      var tail := body[1..];
      ReadKeysStep(rules, body);
      assert forall i | 1 <= i < |body| :: body[i] == tail[i - 1];
      assert KeysOf(body) == {body[0].0} + KeysOf(tail);
      ReadKeysPeriods(rules, tail);
    }
  }

  /** The first key of `keys` whose value is null (or was never set). */
  function FirstNull(keys: seq<string>, fields: map<string, Json>): (r: Option<string>)
    ensures r.None? <==> forall k | k in keys :: k in fields && fields[k] != JNull
    ensures r.Some? ==> r.value in keys && (r.value !in fields || fields[r.value] == JNull)
  {
    if |keys| == 0 then None
    else if keys[0] !in fields || fields[keys[0]] == JNull then Some(keys[0])
    else FirstNull(keys[1..], fields)
  }

  /** The item parser's constructor: the key loop, the completeness check, the
      null checks. The language key is taken to be declared (see
      `ItemLanguageCode`); as written its lookup fails before any body is read. */
  function Parse(rules: Rules, body: seq<(string, Json)>): (r: Result<ParsedItem, BodyError>)
    ensures r.Ok? ==> forall i | 0 <= i < |body| :: body[i].0 in rules.itemKeys
    ensures r.Ok? ==> |body| >= rules.itemThreshold
    ensures r.Ok? ==> forall k | k in rules.notNullKeys :: k in r.value.fields && r.value.fields[k] != JNull
    ensures r.Err? && r.error.ParamsNotFoundInBody? && r.error.parent == "" ==>
      forall k :: k in r.error.missing <==> k in rules.itemKeys && k !in KeysOf(body)
    ensures r.Err? && r.error.InvalidValueInBody? && !r.error.inPeriods ==>
      r.error.key in rules.notNullKeys
  {
    match ReadKeys(rules, body)
    case Err(e) => Err(e)
    case Ok(reading) =>
      if |reading.used| < rules.itemThreshold then
        assert forall k :: k in reading.used <==> k in KeysOf(body) by {
          forall k ensures k in reading.used <==> k in KeysOf(body) {
            if k in reading.used { var i :| 0 <= i < |reading.used| && reading.used[i] == k; assert body[i].0 == k; }
            if k in KeysOf(body) { var i :| 0 <= i < |body| && body[i].0 == k; assert reading.used[i] == k; }
          }
        }
        Err(ParamsNotFoundInBody(Missing(rules.itemKeys, KeysOf(body)), ""))
      else
        match FirstNull(rules.notNullKeys, reading.fields)
        case Some(k) => Err(InvalidValueInBody(k, false))
        case None =>
          Ok(ParsedItem(reading.fields, if reading.periods.Some? then reading.periods.value else []))
  }

  // ---------------------------------------------------------------------------
  // The two parsers
  // ---------------------------------------------------------------------------

  /** The update parser: thirteen item keys, all required; seven period keys,
      none null; six item values that may not be null. */
  const UpdateRules := Rules(
    [ItemName, ItemAddr, ItemLink, ItemPlace, ItemIcon, ItemIsFree, ItemCoordLat, ItemCoordLon,
     ItemPhone, ItemCallForAppointment, ItemCategoryCode, ItemLanguageCode, ItemOpeningHours], 13,
    PeriodRules([PeriodStartHour, PeriodStartDay, PeriodStartMinutes, PeriodEndDay, PeriodEndHour, PeriodEndMinutes, PeriodId], 7, true),
    [ItemName, ItemAddr, ItemIcon, ItemIsFree, ItemCallForAppointment, ItemCategoryCode])

  /** The creation parser as written: eleven item keys, but only ten required;
      six period keys without the id; no null checks. */
  const CreateRulesAsWritten := Rules(
    [ItemName, ItemAddr, ItemLink, ItemPlace, ItemIcon, ItemIsFree, ItemCoordLat, ItemCoordLon,
     ItemCategoryCode, ItemLanguageCode, ItemOpeningHours], 10,
    PeriodRules([PeriodStartHour, PeriodStartDay, PeriodStartMinutes, PeriodEndDay, PeriodEndHour, PeriodEndMinutes], 6, false),
    [])

  /** The creation parser requiring every one of its keys. */
  const CreateRules := CreateRulesAsWritten.(itemThreshold := 11)

  /** Rules whose thresholds ask for every key, each key listed once. */
  predicate RequiresAllKeys(rules: Rules)
  {
    Distinct(rules.itemKeys) && rules.itemThreshold == |rules.itemKeys|
    && Distinct(rules.periods.periodKeys) && rules.periods.periodThreshold == |rules.periods.periodKeys|
    && ItemOpeningHours !in rules.notNullKeys
  }

  lemma UpdateRequiresAllKeys()
    ensures RequiresAllKeys(UpdateRules)
  {
  }

  lemma CreateRequiresAllKeys()
    ensures RequiresAllKeys(CreateRules)
    ensures !RequiresAllKeys(CreateRulesAsWritten)
  {
  }

  /** Creation takes neither a phone nor an appointment flag, nor period ids. */
  lemma CreateKeysLeaveOut()
    ensures ItemPhone !in CreateRules.itemKeys && ItemCallForAppointment !in CreateRules.itemKeys
    ensures PeriodId !in CreateRules.periods.periodKeys && PeriodId in UpdateRules.periods.periodKeys
  {
  }

  // ---------------------------------------------------------------------------
  // Properties of the key loop
  // ---------------------------------------------------------------------------

  /** The first bad entry decides the error, whatever follows it. */
  lemma {:induction false} FirstBadEntryRejected(rules: Rules, body: seq<(string, Json)>, j: nat)
    requires j < |body| && IsBadEntry(rules, body[j])
    requires forall i | 0 <= i < j :: !IsBadEntry(rules, body[i])
    ensures Parse(rules, body) == Err(EntryError(rules, body[j]))
  {
    FirstBadEntryInLoop(rules, body, j);
  }

  lemma {:induction false} FirstBadEntryInLoop(rules: Rules, body: seq<(string, Json)>, j: nat)
    requires j < |body| && IsBadEntry(rules, body[j])
    requires forall i | 0 <= i < j :: !IsBadEntry(rules, body[i])
    ensures ReadKeys(rules, body) == Err(EntryError(rules, body[j]))
  {
    if j > 0 {
      var tail := body[1..];
      assert forall i | 1 <= i < |body| :: body[i] == tail[i - 1];
      FirstBadEntryInLoop(rules, tail, j - 1);
    }
  }

  /** Distinct keys drawn from a list cover it exactly when there are as many. */
  lemma {:induction false} CoverIffEnough(keys: seq<string>, body: seq<(string, Json)>)
    requires Distinct(keys) && DistinctKeys(body)
    requires forall i | 0 <= i < |body| :: body[i].0 in keys
    ensures |body| >= |keys| <==> forall k | k in keys :: k in KeysOf(body)
  {
    var ks := set k | k in keys;
    var found := KeysOf(body);
    DistinctCard(keys);
    BodyKeysCard(body);
    assert found <= ks;
    SubsetCard(found, ks);
    if |body| >= |keys| {
      assert found == ks;
      forall k | k in keys ensures k in found {
        assert k in ks;
      }
    }
    if forall k | k in keys :: k in found {
      assert ks <= found;
      SubsetCard(ks, found);
    }
  }

  lemma {:induction false} BodyKeysCard(body: seq<(string, Json)>)
    requires DistinctKeys(body)
    ensures |KeysOf(body)| == |body|
  {
    if |body| > 0 {
      var tail := body[1..];
      assert forall i | 1 <= i < |body| :: body[i] == tail[i - 1];
      BodyKeysCard(tail);
      assert KeysOf(body) == {body[0].0} + KeysOf(tail);
      assert body[0].0 !in KeysOf(tail);
    }
  }

  /** A body the item parser accepts, stated without the loop: no bad entry,
      enough keys, and a non-null value for every key that may not be null. */
  predicate IsValidBody(rules: Rules, body: seq<(string, Json)>)
  {
    (forall i | 0 <= i < |body| :: !IsBadEntry(rules, body[i]))
    && |body| >= rules.itemThreshold
    && forall k | k in rules.notNullKeys :: exists i | 0 <= i < |body| :: body[i].0 == k && body[i].1 != JNull
  }

  /** The parser accepts exactly the valid bodies, keeping every value sent
      and the periods read from the opening hours. */
  lemma ParseAccepts(rules: Rules, body: seq<(string, Json)>)
    requires DistinctKeys(body) && ItemOpeningHours !in rules.notNullKeys
    ensures Parse(rules, body).Ok? <==> IsValidBody(rules, body)
    ensures Parse(rules, body).Ok? ==> Parse(rules, body).value.fields.Keys == KeysOf(body) - {ItemOpeningHours}
    ensures Parse(rules, body).Ok? ==> forall i | 0 <= i < |body| && body[i].0 != ItemOpeningHours ::
      Parse(rules, body).value.fields[body[i].0] == body[i].1
    ensures Parse(rules, body).Ok? ==> forall i | 0 <= i < |body| && body[i].0 == ItemOpeningHours ::
      Parse(rules, body).value.periods == ReadPeriods(rules.periods, body[i].1).value
    ensures Parse(rules, body).Ok? && ItemOpeningHours !in KeysOf(body) ==> Parse(rules, body).value.periods == []
  {
    if ReadKeys(rules, body).Ok? {
      ReadKeysFields(rules, body);
      ReadKeysPeriods(rules, body);
      var f := ReadKeys(rules, body).value.fields;
      forall k | k in rules.notNullKeys
        ensures (k in f && f[k] != JNull) <==> exists i | 0 <= i < |body| :: body[i].0 == k && body[i].1 != JNull
      {
        if k in f && f[k] != JNull {
          var i :| 0 <= i < |body| && body[i].0 == k;
        }
      }
    }
  }

  /** With distinct keys from its list, a body is complete for rules requiring
      every key exactly when it holds every key; otherwise the missing ones are
      reported, in the list's order. */
  lemma MissingKeysReported(rules: Rules, body: seq<(string, Json)>)
    requires RequiresAllKeys(rules) && DistinctKeys(body)
    requires forall i | 0 <= i < |body| :: !IsBadEntry(rules, body[i])
    ensures (exists k | k in rules.itemKeys :: k !in KeysOf(body)) <==>
      Parse(rules, body) == Err(ParamsNotFoundInBody(Missing(rules.itemKeys, KeysOf(body)), ""))
  {
    CoverIffEnough(rules.itemKeys, body);
  }

  // ---------------------------------------------------------------------------
  // Properties of an opening-hours entry
  // ---------------------------------------------------------------------------

  /** An entry with values under an index that is not numeric is not a list item. */
  lemma NonListIndexRejected(rules: PeriodRules, index: Key, entries: seq<(Key, Json)>)
    requires |entries| > 0 && !IsNumericKey(index)
    ensures ReadEntry(rules, index, JArr(entries)) == Err(ListExpected(ItemOpeningHours))
  {
  }

  /** An empty entry never meets the list check: it is reported as missing every
      period key, under its index, even when the index is not numeric. */
  lemma EmptyEntrySkipsListCheck(rules: PeriodRules, index: Key)
    requires rules.periodThreshold > 0
    ensures ReadEntry(rules, index, JArr([])) ==
      Err(ParamsNotFoundInBody(Missing(rules.periodKeys, {}), ItemOpeningHours + "/" + KeyText(index)))
    ensures forall k :: k in Missing(rules.periodKeys, {}) <==> k in rules.periodKeys
  {
  }

  // ---------------------------------------------------------------------------
  // The creation threshold
  // ---------------------------------------------------------------------------

  /** With the language key declared, creation as written needs only ten of
      its eleven keys: a body lacking any one of them (say the web link)
      passes, where the full check reports it. */
  lemma CreateAsWrittenAcceptsIncomplete(body: seq<(string, Json)>, k: string)
    requires DistinctKeys(body) && |body| == 10
    requires forall i | 0 <= i < |body| :: !IsBadEntry(CreateRulesAsWritten, body[i])
    requires k in CreateRulesAsWritten.itemKeys && k !in KeysOf(body)
    ensures Parse(CreateRulesAsWritten, body).Ok?
    ensures Parse(CreateRules, body) == Err(ParamsNotFoundInBody(Missing(CreateRules.itemKeys, KeysOf(body)), ""))
    ensures k in Missing(CreateRules.itemKeys, KeysOf(body))
  {
    assert CreateRules.periods == CreateRulesAsWritten.periods;
  }

  /** With every key required, a body creation accepts holds all eleven keys. */
  lemma CreateRequiresEveryKey(body: seq<(string, Json)>)
    requires DistinctKeys(body)
    ensures Parse(CreateRules, body).Ok? ==> forall k | k in CreateRules.itemKeys :: k in KeysOf(body)
  {
    if Parse(CreateRules, body).Ok? {
      CreateRequiresAllKeys();
      CoverIffEnough(CreateRules.itemKeys, body);
    }
  }
}
