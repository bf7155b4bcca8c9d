/** The administration panel's item list and period editor: sorted
    insertion of an item, the reaction to a saved item, the search for
    overlapping periods, id preservation for edited periods, the order
    marker, and the two-digit time values of the editor. */
module ItemsPanel {
  import opened Common
  import opened ClientPeriod
  import opened ClientItem

  // ---------------------------------------------------------------------------
  // Sorted insertion
  // ---------------------------------------------------------------------------

  /** The listing order: order preference, then free before paid, then id. */
  predicate KeyLess(x: Item, y: Item)
  {
    || x.orderPreference.Index() < y.orderPreference.Index()
    || (x.orderPreference.Index() == y.orderPreference.Index() && x.isFree && !y.isFree)
    || (x.orderPreference.Index() == y.orderPreference.Index() && x.isFree == y.isFree && x.itemId < y.itemId)
  }

  /** The insertion loop's stopping test: `other` comes strictly after `item`. */
  predicate RanksAfter(other: Item, item: Item)
  {
    var otherPref := other.orderPreference.Index();
    var itemPref := item.orderPreference.Index();
    if otherPref > itemPref then true
    else if otherPref == itemPref then
      if item.isFree && !other.isFree then true
      else other.isFree == item.isFree && other.itemId > item.itemId
    else false
  }

  /** The stopping test is the listing order read backwards. */
  lemma RanksAfterIsKeyLess(other: Item, item: Item)
    ensures RanksAfter(other, item) <==> KeyLess(item, other)
  {
  }

  predicate Sorted(s: seq<Item>)
  {
    forall j, k | 0 <= j < k < |s| :: !KeyLess(s[k], s[j])
  }

  /** The position `_addToItems` stops at: before the first element that
      ranks after the item, or at the end. */
  function InsertPos(items: seq<Item>, item: Item): (i: nat)
    ensures i <= |items|
    ensures forall j | 0 <= j < i :: !RanksAfter(items[j], item)
    ensures i < |items| ==> RanksAfter(items[i], item)
  {
    if |items| == 0 || RanksAfter(items[0], item) then 0
    else 1 + InsertPos(items[1..], item)
  }

  /** `_addToItems`: the item placed at its position; the others keep their
      order, and a sorted list stays sorted. */
  function AddToItems(items: seq<Item>, item: Item): (r: seq<Item>)
    ensures |r| == |items| + 1
    ensures multiset(r) == multiset(items) + multiset{item}
    ensures r[InsertPos(items, item)] == item
    ensures RemoveAt(r, InsertPos(items, item)) == items
    ensures Sorted(items) ==> Sorted(r)
  {
    var i := InsertPos(items, item);
    var r := items[..i] + [item] + items[i..];
    assert items == items[..i] + items[i..];
    assert RemoveAt(r, i) == items;
    InsertKeepsSorted(items, item, i);
    r
  }

  /** Equal keys stay ahead: every element before the item ranks no later. */
  lemma AddToItemsStable(items: seq<Item>, item: Item)
    ensures var i := InsertPos(items, item);
      forall j | 0 <= j < i :: !KeyLess(item, AddToItems(items, item)[j])
  {
    var i := InsertPos(items, item);
    forall j | 0 <= j < i ensures !KeyLess(item, AddToItems(items, item)[j]) {
      RanksAfterIsKeyLess(items[j], item);
    }
  }

  lemma {:induction false} InsertKeepsSorted(items: seq<Item>, item: Item, i: nat)
    requires i <= |items|
    requires forall j | 0 <= j < i :: !RanksAfter(items[j], item)
    requires i < |items| ==> RanksAfter(items[i], item)
    ensures Sorted(items) ==> Sorted(items[..i] + [item] + items[i..])
  {
    if !Sorted(items) {
      return;
    }
    var r := items[..i] + [item] + items[i..];
    forall j, k | 0 <= j < k < |r| ensures !KeyLess(r[k], r[j]) {
      if j < i && k == i {
        RanksAfterIsKeyLess(items[j], item);
      } else if j == i && k > i {
        RanksAfterIsKeyLess(items[i], item);
        assert r[k] == items[k - 1];
        assert !KeyLess(items[k - 1], items[i]) || k - 1 == i;
      } else if j < i && k > i {
        assert r[j] == items[j] && r[k] == items[k - 1];
      } else if k < i {
        assert r[j] == items[j] && r[k] == items[k];
      } else {
        assert r[j] == items[j - 1] && r[k] == items[k - 1];
      }
    }
  }

  /** `_itemUpdated`: when the slot still holds a new item (id -1) or the same
      item, the slot is emptied and the saved item goes back in at its
      sorted position if it still belongs to the category shown; otherwise
      nothing changes. */
  function ItemUpdated(items: seq<Item>, idx: nat, item: Item, currentCode: string): (r: seq<Item>)
    requires idx < |items|
    ensures !(items[idx].itemId == -1 || items[idx].itemId == item.itemId) ==> r == items
    ensures (items[idx].itemId == -1 || items[idx].itemId == item.itemId) ==>
      && (item.categoryCode == currentCode ==>
            |r| == |items| && multiset(r) == multiset(items) - multiset{items[idx]} + multiset{item}
            && (Sorted(items) ==> Sorted(r)))
      && (item.categoryCode != currentCode ==> r == RemoveAt(items, idx))
  {
    if items[idx].itemId == -1 || items[idx].itemId == item.itemId then
      var rest := RemoveAt(items, idx);
      RemoveKeepsSorted(items, idx);
      if item.categoryCode == currentCode then AddToItems(rest, item) else rest
    else items
  }

  lemma RemoveKeepsSorted(items: seq<Item>, idx: nat)
    requires idx < |items|
    ensures Sorted(items) ==> Sorted(RemoveAt(items, idx))
  {
    var rest := RemoveAt(items, idx);
    if Sorted(items) {
      forall j, k | 0 <= j < k < |rest| ensures !KeyLess(rest[k], rest[j]) {
        assert rest[j] == items[if j < idx then j else j + 1];
        assert rest[k] == items[if k < idx then k else k + 1];
      }
    }
  }

  // ---------------------------------------------------------------------------
  // Overlapping periods
  // ---------------------------------------------------------------------------

  /** No pair before `(i, j)` in the search order overlaps. */
  predicate NoneBefore(periods: seq<Period>, overlaps: (Period, Period) -> bool, i: int, j: int)
  {
    forall a, b | 0 <= a < b < |periods| && (a < i || (a == i && b < j)) :: !overlaps(periods[a], periods[b])
  }

  /** `_thereArePeriodsOverlappingIn` with the overlap test given: the first
      pair `(i, j)`, `i < j`, in lexicographic order that overlaps, or none. */
  method FirstOverlap(periods: seq<Period>, overlaps: (Period, Period) -> bool) returns (r: Option<(nat, nat)>)
    ensures r.None? ==> forall a, b | 0 <= a < b < |periods| :: !overlaps(periods[a], periods[b])
    ensures r.Some? ==> r.value.0 < r.value.1 < |periods| && overlaps(periods[r.value.0], periods[r.value.1])
    ensures r.Some? ==> NoneBefore(periods, overlaps, r.value.0, r.value.1)
  {
    var i := 0;
    while i < |periods| - 1
      invariant 0 <= i <= if |periods| == 0 then 0 else |periods| - 1
      invariant NoneBefore(periods, overlaps, i, i + 1)
    {
      var j := i + 1;
      while j < |periods|
        invariant i + 1 <= j <= |periods|
        invariant NoneBefore(periods, overlaps, i, j)
      {
        if overlaps(periods[i], periods[j]) {
          return Some((i, j));
        }
        j := j + 1;
      }
      i := i + 1;
    }
    return None;
  }

  // ---------------------------------------------------------------------------
  // Editing periods
  // ---------------------------------------------------------------------------

  /** `_getEditedPeriodsOn`: the item's period ids are given, position by
      position, to the first edited periods; the rest keep their id (`'new'`
      as the editor builds them); nothing else changes. */
  method EditedPeriodsOn(stored: seq<Period>, edited: seq<Period>) returns (r: seq<Period>)
    ensures |r| == |edited|
    ensures forall i | 0 <= i < |r| && i < |stored| :: r[i] == edited[i].(periodId := stored[i].periodId)
    ensures forall i | |stored| <= i < |r| :: r[i] == edited[i]
  {
    r := edited;
    var i := 0;
    while i < |stored| && i < |r|
      invariant 0 <= i <= |edited| && i <= |stored| && |r| == |edited|
      invariant forall k | 0 <= k < i :: r[k] == edited[k].(periodId := stored[k].periodId)
      invariant forall k | i <= k < |r| :: r[k] == edited[k]
    {
      r := r[i := r[i].(periodId := stored[i].periodId)];
      i := i + 1;
    }
  }

  /** `_orderMarkerText`: ordinal markup for the three ranked orders and
      `Any` for everything else. */
  function OrderMarkerText(preference: string): (r: string)
    ensures r == "Any" <==> !(preference == "first" || preference == "second" || preference == "third")
    ensures preference == "first" ==> r == "1<sup>st</sup>"
    ensures preference == "second" ==> r == "2<sup>nd</sup>"
    ensures preference == "third" ==> r == "3<sup>rd</sup>"
  {
    if preference == "first" then "1<sup>st</sup>"
    else if preference == "second" then "2<sup>nd</sup>"
    else if preference == "third" then "3<sup>rd</sup>"
    else "Any"
  }

  // ---------------------------------------------------------------------------
  // Two-digit time values
  // ---------------------------------------------------------------------------

  /** `n < 10 ? '0' + n : n` in the period editor. */
  function Pad(n: int): (r: string)
    ensures 0 <= n < 100 ==> |r| == 2 && AllDigits(r) && DigitsValue(r) == n
  {
    if n < 10 then
      var r := "0" + IntToString(n);
      if 0 <= n then
        assert r == ['0', DigitChar(n)];
        assert r[..1] == ['0'];
        assert DigitsValue(r[..1]) == 0;
        r
      else r
    else
      var r := IntToString(n);
      if n < 100 then
        DigitsValueOfNatToString(n);
        assert |NatToString(n / 10)| == 1;
        r
      else r
  }

  /** The value of a `time` input: hours and minutes, two digits each. */
  function TimeValue(hour: int, minutes: int): string
  {
    Pad(hour) + ":" + Pad(minutes)
  }

  /** How the editor reads a `time` value back: `parseInt` of its first two
      characters and of what follows the colon; `None` where `parseInt` would
      give NaN. */
  function ParseTimeValue(s: string): (r: Option<(int, int)>)
  {
    if |s| >= 4 && IsNumeral(s[..2]) && IsNumeral(s[3..]) then Some((DigitsValue(s[..2]), DigitsValue(s[3..])))
    else None
  }

  /** The editor reads back the time it wrote. */
  lemma TimeValueRoundTrip(hour: int, minutes: int)
    requires 0 <= hour < 24 && 0 <= minutes < 60
    ensures ParseTimeValue(TimeValue(hour, minutes)) == Some((hour, minutes))
  {
    var s := TimeValue(hour, minutes);
    assert s[..2] == Pad(hour);
    assert s[3..] == Pad(minutes);
  }
}
