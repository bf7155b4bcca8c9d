/** The five kinds of item the application lists. */
module ItemTypes {
  import opened Common

  datatype ItemType = Service | Leisure | Link | Help | Info
  {
    function Val(): (r: string)
      ensures |r| >= 4
    {
      match this
      case Service => "service"
      case Leisure => "leisure"
      case Link => "link"
      case Help => "help"
      case Info => "info"
    }
  }

  datatype TypeError = UnknownTypeStr(str: string)

  /** The item type whose value is `s`. */
  function ForStr(s: string): (r: Result<ItemType, TypeError>)
    ensures r.Ok? ==> r.value.Val() == s
    ensures r.Err? ==> r.error == UnknownTypeStr(s)
    ensures r.Err? ==> forall t: ItemType :: t.Val() != s
  {
    if s == "service" then Ok(Service)
    else if s == "leisure" then Ok(Leisure)
    else if s == "link" then Ok(Link)
    else if s == "help" then Ok(Help)
    else if s == "info" then Ok(Info)
    else Err(UnknownTypeStr(s))
  }

  /** The five values are pairwise distinct. */
  lemma {:induction false} ValInjective(t: ItemType, u: ItemType)
    ensures t.Val() == u.Val() <==> t == u
  {
    if t != u {
      assert t.Val()[0] != u.Val()[0] || t.Val()[1] != u.Val()[1] || |t.Val()| != |u.Val()|;
    }
  }

  /** Parsing a type's own value gives the type back. */
  lemma {:induction false} ForStrOfVal(t: ItemType)
    ensures ForStr(t.Val()) == Ok(t)
  {
    match t
    case Service =>
    case Leisure =>
    case Link =>
    case Help =>
    case Info =>
  }
}
