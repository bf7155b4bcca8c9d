/** The four HTTP methods the API understands, and their case-insensitive parsing. */
module HttpMethods {
  import opened Common

  /** Status code carried by a request the API rejects as malformed. */
  const HttpBadRequest: int := 400

  datatype HttpMethod = Get | Post | Put | Delete
  {
    /** The enum's stored value: the method name in lower case. */
    function Val(): (r: string)
      ensures |r| >= 3 && forall i | 0 <= i < |r| :: IsLower(r[i])
    {
      match this
      case Get => "get"
      case Post => "post"
      case Put => "put"
      case Delete => "delete"
    }
  }

  datatype MethodError = UnknownHttpMethod(status: int, name: string)

  /** Parses a method name in any ASCII casing. */
  function FromStr(s: string): (r: Result<HttpMethod, MethodError>)
    ensures r.Ok? ==> ToUpper(s) == ToUpper(r.value.Val())
    ensures r.Err? ==> r.error == UnknownHttpMethod(HttpBadRequest, s)
    ensures r.Err? ==> forall m: HttpMethod :: ToUpper(s) != ToUpper(m.Val())
  {
    var u := ToUpper(s);
    UpperNames();
    if u == "GET" then Ok(Get)
    else if u == "POST" then Ok(Post)
    else if u == "PUT" then Ok(Put)
    else if u == "DELETE" then Ok(Delete)
    else Err(UnknownHttpMethod(HttpBadRequest, s))
  }

  lemma UpperNames()
    ensures ToUpper(Get.Val()) == "GET" && ToUpper(Post.Val()) == "POST"
    ensures ToUpper(Put.Val()) == "PUT" && ToUpper(Delete.Val()) == "DELETE"
  {
  }

  /** Distinct methods have distinct values. */
  lemma {:induction false} ValInjective(m: HttpMethod, n: HttpMethod)
    ensures m.Val() == n.Val() <==> m == n
  {
    if m != n {
      assert m.Val()[|m.Val()| - 1] != n.Val()[|n.Val()| - 1] || |m.Val()| != |n.Val()| || m.Val()[0] != n.Val()[0];
    }
  }

  /** Parsing a method's own value gives the method back. */
  lemma {:induction false} FromStrOfVal(m: HttpMethod)
    ensures FromStr(m.Val()) == Ok(m)
  {
    UpperNames();
  }

  /** Two spellings that differ only in letter case parse to the same method. */
  lemma {:induction false} FromStrIgnoresCase(s: string, t: string)
    requires ToUpper(s) == ToUpper(t)
    ensures FromStr(s).Ok? <==> FromStr(t).Ok?
    ensures FromStr(s).Ok? ==> FromStr(s) == FromStr(t)
  {
  }
}
