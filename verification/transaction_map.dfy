/** The association from HTTP method to the transaction class that serves it
    under one URL pattern. */
module TransactionMaps {
  import opened Common
  import opened HttpMethods

  /** What the class loader knows about a class name handed to `Put`. */
  datatype ClassKind = Transaction | OtherClass | Missing

  datatype TransactionClass = TransactionClass(name: string, kind: ClassKind)

  datatype MapError =
    | NotATransaction(className: string)
    | ClassNotFound(className: string)

  /** Keys are methods (the source keys by `val()`, which `HttpMethods.ValInjective`
      shows is one-to-one); values are class names. */
  datatype TransactionMap = TransactionMap(pairs: map<HttpMethod, string>)

  function Empty(): (r: TransactionMap)
    ensures Size(r) == 0
    ensures forall m: HttpMethod :: Get(r, m).None? && !ManagesMethod(r, m)
  {
    TransactionMap(map[])
  }

  /** Registers `cls` for `m`, silently replacing an earlier registration. */
  function Put(tm: TransactionMap, m: HttpMethod, cls: TransactionClass): (r: Result<TransactionMap, MapError>)
    ensures r.Ok? <==> cls.kind == Transaction
    ensures cls.kind == OtherClass ==> r == Err(NotATransaction(cls.name))
    ensures cls.kind == Missing ==> r == Err(ClassNotFound(cls.name))
    ensures r.Ok? ==> Get(r.value, m) == Some(cls.name)
    ensures r.Ok? ==> forall n: HttpMethod | n != m :: Get(r.value, n) == Get(tm, n)
    ensures r.Ok? ==> Size(r.value) == if ManagesMethod(tm, m) then Size(tm) else Size(tm) + 1
  {
    match cls.kind
    case Transaction => Ok(TransactionMap(tm.pairs[m := cls.name]))
    case OtherClass => Err(NotATransaction(cls.name))
    case Missing => Err(ClassNotFound(cls.name))
  }

  /** Removes the registration for `m`, if there is one. */
  function Rem(tm: TransactionMap, m: HttpMethod): (r: TransactionMap)
    ensures Get(r, m).None?
    ensures forall n: HttpMethod | n != m :: Get(r, n) == Get(tm, n)
    ensures Size(r) == if ManagesMethod(tm, m) then Size(tm) - 1 else Size(tm)
    ensures !ManagesMethod(tm, m) ==> r == tm
  {
    if m in tm.pairs then TransactionMap(tm.pairs - {m}) else tm
  }

  /** The class registered for `m`; `None` plays PHP's `null`. */
  function Get(tm: TransactionMap, m: HttpMethod): Option<string>
  {
    if m in tm.pairs then Some(tm.pairs[m]) else None
  }

  function Size(tm: TransactionMap): nat
  {
    |tm.pairs|
  }

  predicate ManagesMethod(tm: TransactionMap, m: HttpMethod)
  {
    m in tm.pairs.Keys
  }

  /** `managesMethod` and a non-null `get` agree. */
  lemma ManagesIffGet(tm: TransactionMap, m: HttpMethod)
    ensures ManagesMethod(tm, m) <==> Get(tm, m).Some?
  {
  }

  /** The size is the number of methods the map manages. */
  lemma {:induction false} SizeCountsManagedMethods(tm: TransactionMap)
    ensures Size(tm) == |set m: HttpMethod | m in tm.pairs && ManagesMethod(tm, m)|
  {
    assert (set m: HttpMethod | m in tm.pairs && ManagesMethod(tm, m)) == tm.pairs.Keys;
  }

  /** Registering a method the map did not manage and removing it again restores the map. */
  lemma PutThenRem(tm: TransactionMap, m: HttpMethod, cls: TransactionClass)
    requires cls.kind == Transaction && !ManagesMethod(tm, m)
    ensures Rem(Put(tm, m, cls).value, m) == tm
  {
    assert tm.pairs[m := cls.name] - {m} == tm.pairs;
  }
}
