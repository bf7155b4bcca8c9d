/** What a page saves in the browser history: its class name, the hash that
    identifies it in the URL, and, for the list and map pages, the category
    and the items shown. The scroll position the router adds is not part of
    this model. */
module PageState {
  import opened Common
  import opened ClientItem
  import Svc = ApiService

  datatype PageState = PageState(
    pageClass: Option<string>,
    hash: Option<string>,
    items: seq<ItemObject>,
    category: Option<Svc.Category>)

  /** `Page.getState`: no class and no hash. */
  const BaseState: PageState := PageState(None, None, [], None)

  /** Why restoring a page from a state fails: the state belongs to another
      page class, or it has no category to read the page title from. */
  datatype PageError = WrongPageClass(expected: string) | MissingCategory

  /** The items rebuilt from saved objects. */
  function FromObjects(objects: seq<ItemObject>): (r: seq<Item>)
    ensures |r| == |objects| && forall i | 0 <= i < |r| :: r[i] == FromObject(objects[i])
  {
    seq(|objects|, i requires 0 <= i < |objects| => FromObject(objects[i]))
  }

  /** Saving items and rebuilding them gives the same items. */
  lemma FromObjectsToObjects(items: seq<Item>)
    ensures FromObjects(Svc.ToObjects(items)) == items
  {
    forall i | 0 <= i < |items|
      ensures FromObjects(Svc.ToObjects(items))[i] == items[i]
    {
      FromObjectToObject(items[i]);
    }
  }

  /** The characters of the hash fields the list and map pages accept:
      ASCII letters of either case, digits, `_` and `-`. */
  predicate IsHashChar(c: char) { IsAlnum(c) || c == '_' || c == '-' }

  /** One field of such a hash: one or more of those characters. */
  predicate IsHashWord(s: string) { |s| > 0 && forall i | 0 <= i < |s| :: IsHashChar(s[i]) }

  /** The item ids of a list of item objects. */
  function ItemIds(objects: seq<ItemObject>): (r: seq<int>)
    ensures |r| == |objects| && forall i | 0 <= i < |r| :: r[i] == objects[i].itemId
  {
    seq(|objects|, i requires 0 <= i < |objects| => objects[i].itemId)
  }
}
