/** The items as the web app holds them: the order preference normalised on
    construction, the state object they are saved as, and whether an item is
    open at a given minute of the week. */
module ClientItem {
  import opened Common
  import opened ClientPeriod

  /** `ITEM_ORDER`: where the item asks to be listed. */
  datatype Order = First | Second | Third | Rest
  {
    function Val(): (r: string)
      ensures |r| >= 4
    {
      match this
      case First => "first"
      case Second => "second"
      case Third => "third"
      case Rest => "rest"
    }

    /** The position in `['first', 'second', 'third', 'rest']`. */
    function Index(): (r: nat)
      ensures r < 4
    {
      match this
      case First => 0
      case Second => 1
      case Third => 2
      case Rest => 3
    }
  }

  /** A string that names an order. */
  predicate IsOrderName(s: string)
  {
    s == First.Val() || s == Second.Val() || s == Third.Val() || s == Rest.Val()
  }

  /** The constructor's normalisation: a known order name is kept, anything
      else becomes `rest`. */
  function OrderFor(s: string): (r: Order)
    ensures IsOrderName(s) ==> r.Val() == s
    ensures !IsOrderName(s) ==> r == Rest
  {
    if s == First.Val() then First
    else if s == Second.Val() then Second
    else if s == Third.Val() then Third
    else Rest
  }

  /** An order's own name normalises to it. */
  lemma OrderForVal(o: Order)
    ensures OrderFor(o.Val()) == o
  {
    match o
    case First =>
    case Second => assert Second.Val()[0] != First.Val()[0];
    case Third => assert Third.Val()[0] != First.Val()[0] && Third.Val()[1] != Second.Val()[1];
    case Rest =>
      assert Rest.Val()[0] != First.Val()[0] && Rest.Val()[0] != Second.Val()[0];
      assert Rest.Val()[0] != Third.Val()[0];
  }

  /** An item as the API sends it and as the page state stores it. The
      coordinates are not part of this model. */
  datatype ItemObject = ItemObject(
    itemId: int, orderPreference: string, name: string, address: string,
    webLink: Option<string>, placeId: Option<string>, iconUri: string, isFree: bool,
    phone: Option<string>, callForAppointment: bool, categoryCode: string,
    languageCodes: seq<string>, openingHours: seq<Period>)

  datatype Item = Item(
    itemId: int, orderPreference: Order, name: string, address: string,
    webLink: Option<string>, placeId: Option<string>, iconUri: string, isFree: bool,
    phone: Option<string>, callForAppointment: bool, categoryCode: string,
    languageCodes: seq<string>, openingHours: seq<Period>)

  /** The constructor: every field copied, the order normalised. */
  function FromObject(o: ItemObject): (r: Item)
    ensures r.orderPreference == OrderFor(o.orderPreference)
    ensures |r.openingHours| == |o.openingHours|
      && forall i | 0 <= i < |o.openingHours| :: r.openingHours[i] == o.openingHours[i]
  {
    Item(o.itemId, OrderFor(o.orderPreference), o.name, o.address, o.webLink, o.placeId,
         o.iconUri, o.isFree, o.phone, o.callForAppointment, o.categoryCode,
         o.languageCodes, o.openingHours)
  }

  /** `toObject`: every field, the order as its name. */
  function ToObject(i: Item): (r: ItemObject)
    ensures r.orderPreference == i.orderPreference.Val()
  {
    ItemObject(i.itemId, i.orderPreference.Val(), i.name, i.address, i.webLink, i.placeId,
               i.iconUri, i.isFree, i.phone, i.callForAppointment, i.categoryCode,
               i.languageCodes, i.openingHours)
  }

  /** Rebuilding an item from its state object gives the item back. */
  lemma FromObjectToObject(i: Item)
    ensures FromObject(ToObject(i)) == i
  {
    OrderForVal(i.orderPreference);
  }

  /** A received object survives the round trip exactly when its order name
      is one of the four. */
  lemma ToObjectFromObject(o: ItemObject)
    ensures ToObject(FromObject(o)) == o <==> IsOrderName(o.orderPreference)
  {
    if !IsOrderName(o.orderPreference) {
      assert ToObject(FromObject(o)).orderPreference == Rest.Val();
    }
  }

  /** `isOpenNow` with the clock read as a minute of the week: never for an
      item that takes appointments, otherwise when one of its periods holds
      the minute. */
  method IsOpenNow(item: Item, w: int) returns (open: bool)
    ensures item.callForAppointment ==> !open
    ensures !item.callForAppointment ==>
      (open <==> exists i | 0 <= i < |item.openingHours| :: ContainsMinute(item.openingHours[i], w))
  {
    if item.callForAppointment {
      return false;
    }
    var k := 0;
    while k < |item.openingHours|
      invariant 0 <= k <= |item.openingHours|
      invariant forall i | 0 <= i < k :: !ContainsMinute(item.openingHours[i], w)
    {
      if ContainsMinute(item.openingHours[k], w) {
        return true;
      }
      k := k + 1;
    }
    return false;
  }
}
