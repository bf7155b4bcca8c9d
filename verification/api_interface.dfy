/** The API's vocabulary: the decoded request values a transaction receives and
    the key names of the wire format. */
module ApiInterface {
  import opened Common

  /** A PHP array key: an integer or a string. */
  datatype Key = KInt(i: int) | KStr(s: string)

  /** A decoded JSON value as `json_decode(…, true)` leaves it: objects and lists
      both become ordered arrays. Numbers are integers in this model. */
  datatype Json =
    | JNull
    | JBool(b: bool)
    | JNum(n: int)
    | JStr(s: string)
    | JArr(entries: seq<(Key, Json)>)

  /** The value stored under `k`: that of the first entry carrying it (see
      `LookupFirst`). */
  function Lookup(entries: seq<(Key, Json)>, k: Key): (r: Option<Json>)
    ensures r.None? <==> forall i | 0 <= i < |entries| :: entries[i].0 != k
    ensures r.Some? ==> exists i | 0 <= i < |entries| :: entries[i] == (k, r.value)
  {
    if |entries| == 0 then None
    else if entries[0].0 == k then Some(entries[0].1)
    else
      var r := Lookup(entries[1..], k);
      assert forall i | 1 <= i < |entries| :: entries[i] == entries[1..][i - 1];
      r
  }

  /** The entry found is the first one carrying the key. */
  lemma {:induction false} LookupFirst(entries: seq<(Key, Json)>, k: Key)
    requires Lookup(entries, k).Some?
    ensures exists i | 0 <= i < |entries| ::
      entries[i] == (k, Lookup(entries, k).value) && forall j | 0 <= j < i :: entries[j].0 != k
    decreases |entries|
  {
    if entries[0].0 != k {
      LookupFirst(entries[1..], k);
      var i :| 0 <= i < |entries[1..]| && entries[1..][i] == (k, Lookup(entries[1..], k).value)
        && forall j | 0 <= j < i :: entries[1..][j].0 != k;
      assert entries[i + 1] == (k, Lookup(entries, k).value);
      forall j | 0 <= j < i + 1
        ensures entries[j].0 != k
      {
        if j > 0 { assert entries[j] == entries[1..][j - 1]; }
      }
    } else {
      assert entries[0] == (k, Lookup(entries, k).value);
    }
  }

  /** How a key reads when PHP interpolates it into a message. */
  function KeyText(k: Key): string
  {
    match k
    case KInt(i) => IntToString(i)
    case KStr(s) => s
  }

  /** How a scalar reads when PHP interpolates it into a message; arrays read
      as the word `Array`. */
  function JsonText(v: Json): string
  {
    match v
    case JNull => ""
    case JBool(b) => if b then "1" else ""
    case JNum(n) => IntToString(n)
    case JStr(s) => s
    case JArr(_) => "Array"
  }

  // ---------------------------------------------------------------------------
  // `is_numeric`
  // ---------------------------------------------------------------------------

  /** The blanks `is_numeric` allows around a number. */
  predicate IsNumericSpace(c: char) {
    c == ' ' || c == '\t' || c == '\n' || c == '\r' || c == '\U{B}' || c == '\U{C}'
  }

  predicate IsSign(c: char) { c == '+' || c == '-' }

  /** Digits with at most one decimal point and at least one digit. */
  predicate IsMantissa(s: string)
  {
    match IndexOf(s, '.')
    case None => |s| > 0 && AllDigits(s)
    case Some(k) => AllDigits(s[..k]) && AllDigits(s[k + 1..]) && |s| > 1
  }

  /** An optionally signed run of digits. */
  predicate IsExponent(s: string)
  {
    if |s| > 0 && IsSign(s[0]) then |s| > 1 && AllDigits(s[1..]) else |s| > 0 && AllDigits(s)
  }

  /** A sign, a mantissa and an optional exponent, without blanks. */
  predicate IsNumberText(s: string)
  {
    var u := if |s| > 0 && IsSign(s[0]) then s[1..] else s;
    match IndexOf(ToLower(u), 'e')
    case None => IsMantissa(u)
    case Some(k) => IsMantissa(u[..k]) && IsExponent(u[k + 1..])
  }

  /** `is_numeric` of a string: a number, possibly surrounded by blanks. */
  predicate IsNumericString(s: string)
  {
    IsNumberText(Trim(s, IsNumericSpace))
  }

  /** `is_numeric` of an array key: integer keys always are. */
  predicate IsNumericKey(k: Key)
  {
    match k
    case KInt(_) => true
    case KStr(s) => IsNumericString(s)
  }

  /** A plain run of digits, such as a list index sent as a string, is numeric. */
  lemma DigitsAreNumeric(s: string)
    requires |s| > 0 && AllDigits(s)
    ensures IsNumericString(s)
  {
    TrimKeeps(s, IsNumericSpace);
    assert !IsSign(s[0]);
    assert 'e' !in ToLower(s) by {
      forall i | 0 <= i < |s| ensures ToLower(s)[i] != 'e' { assert IsDigit(s[i]); }
    }
    assert '.' !in s by {
      forall i | 0 <= i < |s| ensures s[i] != '.' { assert IsDigit(s[i]); }
    }
  }

  lemma MantissaHasDigit(m: string)
    requires IsMantissa(m)
    ensures exists i | 0 <= i < |m| :: IsDigit(m[i])
  {
    match IndexOf(m, '.')
    case None => assert IsDigit(m[0]);
    case Some(k) =>
      if k > 0 { assert IsDigit(m[..k][0]); }
      else { assert IsDigit(m[k + 1..][0]); }
  }

  /** Text without any digit, such as a word used as an object key, is not numeric. */
  lemma WithoutDigitsNotNumeric(s: string)
    requires forall i | 0 <= i < |s| :: !IsDigit(s[i])
    ensures !IsNumericString(s)
  {
    TrimKeepsNoDigit(s);
    NoDigitNoNumber(Trim(s, IsNumericSpace));
  }

  /** Trimming blanks adds no digit. */
  lemma TrimKeepsNoDigit(s: string)
    requires forall i | 0 <= i < |s| :: !IsDigit(s[i])
    ensures var t := Trim(s, IsNumericSpace); forall i | 0 <= i < |t| :: !IsDigit(t[i])
  {
    var a := TrimStart(s, IsNumericSpace);
    var t := TrimEnd(a, IsNumericSpace);
    assert forall i | 0 <= i < |t| :: t[i] == s[|s| - |a| + i];
  }

  /** A number holds a digit somewhere. */
  lemma NoDigitNoNumber(t: string)
    requires forall i | 0 <= i < |t| :: !IsDigit(t[i])
    ensures !IsNumberText(t)
  {
    var u := if |t| > 0 && IsSign(t[0]) then t[1..] else t;
    assert forall i | 0 <= i < |u| :: !IsDigit(u[i]);
    match IndexOf(ToLower(u), 'e')
    case None =>
      if IsMantissa(u) { MantissaHasDigit(u); }
    case Some(k) =>
      if IsMantissa(u[..k]) {
        MantissaHasDigit(u[..k]);
      }
  }

  /** Integer keys and non-empty runs of digits are numeric; text without
      any digit, the empty string included, is not. */
  lemma NumericKeys(k: Key)
    ensures k.KInt? ==> IsNumericKey(k)
    ensures k.KStr? && |k.s| > 0 && AllDigits(k.s) ==> IsNumericKey(k)
    ensures k.KStr? && (forall i | 0 <= i < |k.s| :: !IsDigit(k.s[i])) ==> !IsNumericKey(k)
  {
    if k.KStr? {
      if |k.s| > 0 && AllDigits(k.s) {
        DigitsAreNumeric(k.s);
      }
      if forall i | 0 <= i < |k.s| :: !IsDigit(k.s[i]) {
        WithoutDigitsNotNumeric(k.s);
      }
    }
  }

  // ---------------------------------------------------------------------------
  // Key names
  // ---------------------------------------------------------------------------

  const InputFormatParam := "in"
  const OutputFormatParam := "out"
  const FormatsJson := "json"
  const InputFormatDefault := FormatsJson
  const OutputFormatDefault := FormatsJson
  const PeriodIdCreateNewValue := "new"

  const ItemId := "itemId"
  const ItemName := "name"
  const ItemAddr := "address"
  const ItemLink := "webLink"
  const ItemPlace := "placeId"
  const ItemIcon := "iconUri"
  const ItemIsFree := "isFree"
  const ItemCoordLat := "coordLat"
  const ItemCoordLon := "coordLon"
  const ItemPhone := "phone"
  const ItemCallForAppointment := "callForAppointment"
  const ItemCategoryCode := "categoryCode"
  /** The body key for an item's language. The interface file declares only
      the plural `languageCodes`, so as written every use of the singular
      constant stops the request with an undefined-constant error; the model
      is of the program with the constant declared, and this name is a
      modelling choice. */
  const ItemLanguageCode := "languageCode"
  const ItemOpeningHours := "openingHours"

  const PeriodId := "periodId"
  const PeriodStartDay := "startDay"
  const PeriodStartHour := "startHour"
  const PeriodStartMinutes := "startMinutes"
  const PeriodEndDay := "endDay"
  const PeriodEndHour := "endHour"
  const PeriodEndMinutes := "endMinutes"
}
