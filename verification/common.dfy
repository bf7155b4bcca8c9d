/** Small shared vocabulary: optional values, character classes of the ASCII
    alphabet, trimming, splitting and decimal rendering of integers. */
module Common {

  datatype Option<+T> = None | Some(value: T)

  datatype Result<+T, +E> = Ok(value: T) | Err(error: E)
  {
    predicate IsFailure() { Err? }

    function PropagateFailure<U>(): Result<U, E>
      requires Err?
    {
      Err(error)
    }

    function Extract(): T
      requires Ok?
    {
      value
    }
  }

  // ---------------------------------------------------------------------------
  // Character classes
  // ---------------------------------------------------------------------------

  predicate IsDigit(c: char) { '0' <= c <= '9' }
  predicate IsUpper(c: char) { 'A' <= c <= 'Z' }
  predicate IsLower(c: char) { 'a' <= c <= 'z' }
  predicate IsLetter(c: char) { IsUpper(c) || IsLower(c) }
  predicate IsAlnum(c: char) { IsLetter(c) || IsDigit(c) }
  predicate IsHexDigit(c: char) { IsDigit(c) || 'a' <= c <= 'f' || 'A' <= c <= 'F' }

  /** PCRE's `\s`: space, tab, line feed, vertical tab, form feed, carriage return. */
  predicate IsPcreSpace(c: char) {
    c == ' ' || c == '\t' || c == '\n' || c == '\U{B}' || c == '\U{C}' || c == '\r'
  }

  /** The characters PHP's `trim` removes by default: " \t\n\r\0\x0B". */
  predicate IsPhpTrimChar(c: char) {
    c == ' ' || c == '\t' || c == '\n' || c == '\r' || c == '\0' || c == '\U{B}'
  }

  /** JavaScript line terminators (what a regular-expression `.` does not match). */
  predicate IsJsLineTerminator(c: char) {
    c == '\n' || c == '\r' || c == '\U{2028}' || c == '\U{2029}'
  }

  /** The characters `String.prototype.trim` removes: white space and line terminators. */
  predicate IsJsWhitespace(c: char) {
    || c == '\t' || c == '\U{B}' || c == '\U{C}' || c == ' ' || c == '\U{A0}' || c == '\U{FEFF}'
    || c == '\U{1680}' || ('\U{2000}' <= c <= '\U{200A}') || c == '\U{202F}' || c == '\U{205F}'
    || c == '\U{3000}'
    || IsJsLineTerminator(c)
  }

  function UpperChar(c: char): (r: char)
    ensures IsLower(c) ==> IsUpper(r)
    ensures !IsLower(c) ==> r == c
  {
    if IsLower(c) then (c as int - 32) as char else c
  }

  function LowerChar(c: char): (r: char)
    ensures IsUpper(c) ==> IsLower(r)
    ensures !IsUpper(c) ==> r == c
  {
    if IsUpper(c) then (c as int + 32) as char else c
  }

  /** ASCII upper-casing, character by character. */
  function ToUpper(s: string): (r: string)
    ensures |r| == |s|
    ensures forall i | 0 <= i < |s| :: r[i] == UpperChar(s[i])
  {
    seq(|s|, i requires 0 <= i < |s| => UpperChar(s[i]))
  }

  /** ASCII lower-casing, character by character. */
  function ToLower(s: string): (r: string)
    ensures |r| == |s|
    ensures forall i | 0 <= i < |s| :: r[i] == LowerChar(s[i])
  {
    seq(|s|, i requires 0 <= i < |s| => LowerChar(s[i]))
  }

  predicate AllDigits(s: string) { forall i | 0 <= i < |s| :: IsDigit(s[i]) }

  // ---------------------------------------------------------------------------
  // Prefixes, searching, splitting
  // ---------------------------------------------------------------------------

  predicate StartsWith(s: string, p: string) { |p| <= |s| && s[..|p|] == p }

  predicate EndsWith(s: string, p: string) { |p| <= |s| && s[|s| - |p|..] == p }

  /** The index of the first occurrence of `c` in `s`, if any. */
  function IndexOf(s: string, c: char): (r: Option<nat>)
    ensures r.None? <==> c !in s
    ensures r.Some? ==> r.value < |s| && s[r.value] == c && c !in s[..r.value]
  {
    if |s| == 0 then None
    else if s[0] == c then Some(0)
    else match IndexOf(s[1..], c)
      case None => None
      case Some(k) => assert s[..k + 1] == [s[0]] + s[1..][..k]; Some(k + 1)
  }

  /** PHP's `explode` and JavaScript's `split` on a one-character separator. */
  function Split(s: string, sep: char): (r: seq<string>)
    ensures |r| >= 1
    ensures forall i | 0 <= i < |r| :: sep !in r[i]
    ensures Join(r, sep) == s
    decreases |s|
  {
    match IndexOf(s, sep)
    case None => [s]
    case Some(k) =>
      var rest := Split(s[k + 1..], sep);
      assert s == s[..k] + [sep] + s[k + 1..];
      [s[..k]] + rest
  }

  lemma {:induction false} IndexOfAt(s: string, c: char, k: nat)
    requires k < |s| && s[k] == c && c !in s[..k]
    ensures IndexOf(s, c) == Some(k)
    decreases k
  {
    if k > 0 {
      assert s[1..][k - 1] == c;
      assert s[1..][..k - 1] == s[..k][1..];
      IndexOfAt(s[1..], c, k - 1);
    }
  }

  /** Text with exactly one separator splits into the two sides. */
  lemma SplitOnce(s: string, sep: char, a: string, b: string)
    requires s == a + [sep] + b && sep !in a && sep !in b
    ensures Split(s, sep) == [a, b]
  {
    assert s[..|a|] == a;
    IndexOfAt(s, sep, |a|);
    assert s[|a| + 1..] == b;
  }

  /** The pieces glued back with the separator between consecutive pieces. */
  function Join(parts: seq<string>, sep: char): string
  {
    if |parts| == 0 then ""
    else if |parts| == 1 then parts[0]
    else parts[0] + [sep] + Join(parts[1..], sep)
  }

  /** The pieces glued back without separator. */
  function Concat(parts: seq<string>): string
  {
    if |parts| == 0 then "" else parts[0] + Concat(parts[1..])
  }

  /** Three parts joined: each separator between two of them. */
  lemma JoinThree(parts: seq<string>, sep: char)
    requires |parts| == 3
    ensures Join(parts, sep) == parts[0] + [sep] + parts[1] + [sep] + parts[2]
  {
    assert parts[1..][1..] == [parts[2]];
    assert Join(parts[1..], sep) == parts[1] + [sep] + parts[2];
  }

  /** Text cut around one of its characters. */
  lemma CutAt(s: string, k: nat)
    requires k < |s|
    ensures s == s[..k] + [s[k]] + s[k + 1..]
  {
  }

  /** Separator-free pieces come back from splitting their join. */
  lemma {:induction false} SplitJoin(parts: seq<string>, sep: char)
    requires |parts| >= 1
    requires forall i | 0 <= i < |parts| :: sep !in parts[i]
    ensures Split(Join(parts, sep), sep) == parts
    decreases |parts|
  {
    if |parts| > 1 {
      var s := Join(parts, sep);
      var a := parts[0];
      assert s == a + [sep] + Join(parts[1..], sep);
      assert s[..|a|] == a;
      IndexOfAt(s, sep, |a|);
      assert s[|a| + 1..] == Join(parts[1..], sep);
      SplitJoin(parts[1..], sep);
    } else {
      assert Join(parts, sep) == parts[0];
    }
  }

  /** How many times `c` occurs in `s`. */
  function Count(s: string, c: char): (r: nat)
    ensures r <= |s|
    ensures r == 0 <==> c !in s
  {
    if |s| == 0 then 0 else (if s[0] == c then 1 else 0) + Count(s[1..], c)
  }

  lemma {:induction false} CountAppend(a: string, b: string, c: char)
    ensures Count(a + b, c) == Count(a, c) + Count(b, c)
    decreases |a|
  {
    if |a| == 0 {
      assert a + b == b;
    } else {
      assert (a + b)[1..] == a[1..] + b;
      CountAppend(a[1..], b, c);
    }
  }

  /** An optional text as a template literal prints it: `undefined` when absent. */
  function TemplateText(o: Option<string>): string
  {
    match o
    case Some(s) => s
    case None => "undefined"
  }

  // ---------------------------------------------------------------------------
  // Trimming
  // ---------------------------------------------------------------------------

  function TrimStart(s: string, drop: char -> bool): (r: string)
    ensures |r| <= |s| && r == s[|s| - |r|..]
    ensures |r| > 0 ==> !drop(r[0])
    ensures forall i | 0 <= i < |s| - |r| :: drop(s[i])
  {
    if |s| > 0 && drop(s[0]) then TrimStart(s[1..], drop) else s
  }

  function TrimEnd(s: string, drop: char -> bool): (r: string)
    ensures |r| <= |s| && r == s[..|r|]
    ensures |r| > 0 ==> !drop(r[|r| - 1])
    ensures forall i | |r| <= i < |s| :: drop(s[i])
  {
    if |s| > 0 && drop(s[|s| - 1]) then TrimEnd(s[..|s| - 1], drop) else s
  }

  /** `s` without the leading and trailing characters that satisfy `drop`. */
  function Trim(s: string, drop: char -> bool): (r: string)
    ensures |r| > 0 ==> !drop(r[0]) && !drop(r[|r| - 1])
  {
    TrimEnd(TrimStart(s, drop), drop)
  }

  /** A string that starts and ends with kept characters is its own trim. */
  lemma TrimKeeps(s: string, drop: char -> bool)
    requires |s| > 0 && !drop(s[0]) && !drop(s[|s| - 1])
    ensures Trim(s, drop) == s
  {
  }

  /** Trimming twice trims no more than trimming once. */
  lemma TrimIdempotent(s: string, drop: char -> bool)
    ensures Trim(Trim(s, drop), drop) == Trim(s, drop)
  {
    var r := Trim(s, drop);
    if |r| > 0 {
      TrimKeeps(r, drop);
    }
  }

  predicate AllSatisfy(s: string, p: char -> bool) { forall i | 0 <= i < |s| :: p(s[i]) }

  lemma {:induction false} TrimStartAbsorbs(x: string, s: string, drop: char -> bool)
    requires AllSatisfy(x, drop)
    ensures TrimStart(x + s, drop) == TrimStart(s, drop)
    decreases |x|
  {
    if |x| > 0 {
      assert (x + s)[1..] == x[1..] + s;
      TrimStartAbsorbs(x[1..], s, drop);
    } else {
      assert x + s == s;
    }
  }

  lemma {:induction false} TrimEndAbsorbs(s: string, y: string, drop: char -> bool)
    requires AllSatisfy(y, drop)
    ensures TrimEnd(s + y, drop) == TrimEnd(s, drop)
    decreases |y|
  {
    if |y| > 0 {
      assert (s + y)[..|s + y| - 1] == s + y[..|y| - 1];
      TrimEndAbsorbs(s, y[..|y| - 1], drop);
    } else {
      assert s + y == s;
    }
  }

  lemma {:induction false} TrimEndOfStart(s: string, y: string, drop: char -> bool)
    requires AllSatisfy(y, drop)
    ensures TrimStart(s + y, drop) == TrimStart(s, drop) + y || (TrimStart(s, drop) == [] && AllSatisfy(TrimStart(s + y, drop), drop))
    decreases |s|
  {
    if |s| > 0 && drop(s[0]) {
      assert (s + y)[1..] == s[1..] + y;
      TrimEndOfStart(s[1..], y, drop);
    } else if |s| > 0 {
      assert (s + y)[0] == s[0];
    } else {
      assert s + y == y;
    }
  }

  /** Surrounding characters that `drop` removes do not change the trimmed string. */
  lemma {:induction false} TrimAbsorbs(x: string, s: string, y: string, drop: char -> bool)
    requires AllSatisfy(x, drop) && AllSatisfy(y, drop)
    ensures Trim(x + s + y, drop) == Trim(s, drop)
  {
    assert x + s + y == x + (s + y);
    TrimStartAbsorbs(x, s + y, drop);
    TrimEndOfStart(s, y, drop);
    var t := TrimStart(s, drop);
    if TrimStart(s + y, drop) == t + y {
      TrimEndAbsorbs(t, y, drop);
    } else {
      var u := TrimStart(s + y, drop);
      TrimEndAllDropped(u, drop);
      assert TrimEnd(t, drop) == [];
    }
  }

  lemma {:induction false} TrimEndAllDropped(u: string, drop: char -> bool)
    requires AllSatisfy(u, drop)
    ensures TrimEnd(u, drop) == []
    decreases |u|
  {
    if |u| > 0 {
      TrimEndAllDropped(u[..|u| - 1], drop);
    }
  }

  // ---------------------------------------------------------------------------
  // Decimal numerals
  // ---------------------------------------------------------------------------

  function DigitChar(d: nat): (c: char)
    requires d < 10
    ensures IsDigit(c) && c as int - '0' as int == d
  {
    ('0' as int + d) as char
  }

  function DigitValue(c: char): nat
    requires IsDigit(c)
  {
    c as int - '0' as int
  }

  /** The decimal numeral of `n`, as JavaScript and PHP print a non-negative integer. */
  function NatToString(n: nat): (r: string)
    ensures |r| >= 1 && AllDigits(r)
    ensures r[0] == '0' ==> n == 0
    ensures n < 10 <==> |r| == 1
    decreases n
  {
    if n < 10 then [DigitChar(n)] else NatToString(n / 10) + [DigitChar(n % 10)]
  }

  /** The value of a string of decimal digits (leading zeros allowed). */
  function DigitsValue(s: string): nat
    requires AllDigits(s)
  {
    if |s| == 0 then 0 else DigitsValue(s[..|s| - 1]) * 10 + DigitValue(s[|s| - 1])
  }

  lemma {:induction false} DigitsValueOfNatToString(n: nat)
    ensures DigitsValue(NatToString(n)) == n
    decreases n
  {
    if n >= 10 {
      var r := NatToString(n);
      assert r[..|r| - 1] == NatToString(n / 10);
      DigitsValueOfNatToString(n / 10);
    }
  }

  /** The decimal numeral of an integer, with a leading '-' when negative. */
  function IntToString(i: int): (r: string)
    ensures |r| >= 1
    ensures i >= 0 ==> AllDigits(r)
    ensures i < 0 ==> r[0] == '-' && |r| >= 2 && AllDigits(r[1..])
  {
    if i < 0 then "-" + NatToString(-i) else NatToString(i)
  }

  lemma NatToStringInjective(a: nat, b: nat)
    requires NatToString(a) == NatToString(b)
    ensures a == b
  {
    DigitsValueOfNatToString(a);
    DigitsValueOfNatToString(b);
  }

  /** `splice(i, 1)`: the sequence without its element at `i`. */
  function RemoveAt<T>(s: seq<T>, i: nat): (r: seq<T>)
    requires i < |s|
    ensures |r| == |s| - 1
    ensures multiset(s) == multiset(r) + multiset{s[i]}
    ensures forall j | 0 <= j < |r| :: r[j] == if j < i then s[j] else s[j + 1]
  {
    assert s == s[..i] + [s[i]] + s[i + 1..];
    s[..i] + s[i + 1..]
  }

  // ---------------------------------------------------------------------------
  // Counting
  // ---------------------------------------------------------------------------

  predicate Distinct<T(==)>(s: seq<T>) { forall i, j | 0 <= i < j < |s| :: s[i] != s[j] }

  /** A sequence without repetitions has as many elements as its set. */
  lemma {:induction false} DistinctCard<T>(s: seq<T>)
    requires Distinct(s)
    ensures |set x | x in s| == |s|
  {
    if |s| > 0 {
      var t := s[1..];
      assert forall i | 0 <= i < |t| :: t[i] == s[i + 1];
      DistinctCard(t);
      assert (set x | x in s) == {s[0]} + (set x | x in t);
      assert s[0] !in (set x | x in t);
    }
  }

  /** A subset is no larger, and a subset as large is the whole set. */
  lemma SubsetCard<T>(a: set<T>, b: set<T>)
    requires a <= b
    ensures |a| <= |b|
    ensures |a| == |b| ==> a == b
  {
    assert b == a + (b - a);
  }
}
