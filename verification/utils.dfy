/** The web app's two helpers on built-in types: escaping text for HTML, and
    comparing two arrays of numbers regardless of order. */
module Utils {
  import opened Common

  // ---------------------------------------------------------------------------
  // HTML escaping
  // ---------------------------------------------------------------------------

  /** The characters `htmlEscape` replaces. */
  predicate IsHtmlSpecial(c: char) {
    c == '&' || c == '<' || c == '>' || c == '"' || c == '\'' || c == '/'
  }

  /** The entity written for each special character. */
  function Entity(c: char): (r: string)
    requires IsHtmlSpecial(c)
    ensures |r| >= 4 && r[0] == '&' && r[|r| - 1] == ';'
  {
    match c
    case '&' => "&amp;"
    case '<' => "&lt;"
    case '>' => "&gt;"
    case '"' => "&quot;"
    case '\'' => "&#x27;"
    case _ => "&#x2F;"
  }

  function EscapeChar(c: char): (r: string)
  {
    if IsHtmlSpecial(c) then Entity(c) else [c]
  }

  /** `htmlEscape`: every special character replaced by its entity, every
      other character kept. */
  function HtmlEscape(s: string): (r: string)
    ensures |r| >= |s|
    ensures forall i | 0 <= i < |r| :: !IsHtmlSpecial(r[i]) || r[i] == '&'
  {
    if |s| == 0 then "" else EscapeChar(s[0]) + HtmlEscape(s[1..])
  }

  /** The entity at the start of `s`, as the character it stands for and its
      length. */
  function EntityAt(s: string): (r: Option<(char, nat)>)
    ensures r.Some? ==> IsHtmlSpecial(r.value.0) && r.value.1 == |Entity(r.value.0)| <= |s|
    ensures r.Some? ==> s[..r.value.1] == Entity(r.value.0)
  {
    if StartsWith(s, "&amp;") then Some(('&', 5))
    else if StartsWith(s, "&lt;") then Some(('<', 4))
    else if StartsWith(s, "&gt;") then Some(('>', 4))
    else if StartsWith(s, "&quot;") then Some(('"', 6))
    else if StartsWith(s, "&#x27;") then Some(('\'', 6))
    else if StartsWith(s, "&#x2F;") then Some(('/', 6))
    else None
  }

  /** Reading escaped text back: each of the six entities becomes its
      character, everything else is kept. */
  function HtmlUnescape(s: string): (r: string)
    decreases |s|
  {
    if |s| == 0 then ""
    else match EntityAt(s)
      case Some((c, n)) => [c] + HtmlUnescape(s[n..])
      case None => [s[0]] + HtmlUnescape(s[1..])
  }

  /** An escaped character followed by any text is read back as that
      character followed by the rest read back. */
  lemma UnescapeAfterEscaped(c: char, rest: string)
    ensures HtmlUnescape(EscapeChar(c) + rest) == [c] + HtmlUnescape(rest)
  {
    var e := EscapeChar(c) + rest;
    if IsHtmlSpecial(c) {
      EntityAtEntity(c, rest);
      assert e[|Entity(c)|..] == rest;
    } else {
      assert e[0] == c && e[1..] == rest;
      NoEntityAt(e);
    }
  }

  lemma NoEntityAt(s: string)
    requires |s| > 0 && s[0] != '&'
    ensures EntityAt(s) == None
  {
  }

  /** The entity of a special character is recognised as that character. */
  lemma EntityAtEntity(c: char, rest: string)
    requires IsHtmlSpecial(c)
    ensures EntityAt(Entity(c) + rest) == Some((c, |Entity(c)|))
  {
    var e := Entity(c) + rest;
    assert e[..|Entity(c)|] == Entity(c);
    match c
    case '&' =>
    case '<' => assert e[1] == 'l';
    case '>' => assert e[1] == 'g';
    case '"' => assert e[1] == 'q';
    case '\'' => assert e[1] == '#' && e[4] == '7';
    case _ => assert e[1] == '#' && e[4] == 'F';
  }

  /** Escaping loses nothing: the escaped text reads back as the original. */
  lemma {:induction false} HtmlEscapeRoundTrip(s: string)
    ensures HtmlUnescape(HtmlEscape(s)) == s
    decreases |s|
  {
    if |s| > 0 {
      UnescapeAfterEscaped(s[0], HtmlEscape(s[1..]));
      HtmlEscapeRoundTrip(s[1..]);
    }
  }

  /** Text without special characters is left as it is. */
  lemma {:induction false} HtmlEscapeKeepsPlain(s: string)
    requires forall i | 0 <= i < |s| :: !IsHtmlSpecial(s[i])
    ensures HtmlEscape(s) == s
    decreases |s|
  {
    if |s| > 0 {
      HtmlEscapeKeepsPlain(s[1..]);
    }
  }

  // ---------------------------------------------------------------------------
  // Comparing arrays of numbers
  // ---------------------------------------------------------------------------

  predicate Sorted(s: seq<int>) { forall i, j | 0 <= i < j < |s| :: s[i] <= s[j] }

  /** `x` put into its place in a sorted sequence. */
  function Insert(x: int, s: seq<int>): (r: seq<int>)
    requires Sorted(s)
    ensures Sorted(r) && multiset(r) == multiset(s) + multiset{x}
    ensures |r| == |s| + 1
  {
    if |s| == 0 || x <= s[0] then [x] + s
    else
      var t := Insert(x, s[1..]);
      assert s == [s[0]] + s[1..];
      forall j | 0 <= j < |t|
        ensures s[0] <= t[j]
      {
        assert t[j] in multiset(s[1..]) + multiset{x};
        if t[j] != x {
          assert t[j] in s[1..];
        }
      }
      [s[0]] + t
  }

  /** `sort`: a sorted copy with the same numbers. */
  function Sort(s: seq<int>): (r: seq<int>)
    ensures Sorted(r) && multiset(r) == multiset(s)
  {
    if |s| == 0 then []
    else
      assert s == [s[0]] + s[1..];
      Insert(s[0], Sort(s[1..]))
  }

  /** Two sorted sequences with the same numbers are the same sequence. */
  lemma {:induction false} SortedUnique(x: seq<int>, y: seq<int>)
    requires Sorted(x) && Sorted(y) && multiset(x) == multiset(y)
    ensures x == y
    decreases |x|
  {
    if |x| > 0 {
      SameHead(x, y);
      SortedTail(x);
      SortedTail(y);
      SortedUnique(x[1..], y[1..]);
      assert x == [x[0]] + x[1..] && y == [y[0]] + y[1..];
    } else {
      assert |y| == |multiset(y)| == 0;
    }
  }

  /** Two sorted sequences with the same numbers start alike, and what
      follows holds the same numbers. */
  lemma SameHead(x: seq<int>, y: seq<int>)
    requires Sorted(x) && Sorted(y) && multiset(x) == multiset(y) && |x| > 0
    ensures |y| > 0 && x[0] == y[0] && multiset(x[1..]) == multiset(y[1..])
  {
    assert x[0] in multiset(x) && y[0] in multiset(x);
    LeastIsFirst(x, y[0]);
    LeastIsFirst(y, x[0]);
    MultisetTail(x);
    MultisetTail(y);
  }

  lemma MultisetTail(x: seq<int>)
    requires |x| > 0
    ensures multiset(x[1..]) == multiset(x) - multiset{x[0]}
  {
    assert x == [x[0]] + x[1..];
  }

  lemma SortedTail(x: seq<int>)
    requires |x| > 0 && Sorted(x)
    ensures Sorted(x[1..])
  {
  }

  lemma LeastIsFirst(s: seq<int>, v: int)
    requires Sorted(s) && v in multiset(s)
    ensures |s| > 0 && s[0] <= v
  {
    assert v in s;
  }

  /** `hasSameNumbers` as written: `splice()` with no arguments removes and
      returns nothing, so both "copies" are empty, the comparison loop never
      runs, and only the lengths are compared. */
  function HasSameNumbersAsWritten(a: seq<int>, b: seq<int>): bool
  {
    var equal := |a| == |b|;
    if !equal then false
    else
      var cloneA, cloneB := Sort(SpliceNothing(a)), Sort(SpliceNothing(b));
      forall i | 0 <= i < |cloneA| :: i < |cloneB| && cloneA[i] == cloneB[i]
  }

  /** `splice()` called with no arguments: the removed elements, none. */
  function SpliceNothing(s: seq<int>): (r: seq<int>)
    ensures r == []
  {
    s[..0]
  }

  /** `hasSameNumbers` as intended: equal lengths and equal sorted copies. */
  function HasSameNumbers(a: seq<int>, b: seq<int>): bool
  {
    |a| == |b| && Sort(a) == Sort(b)
  }

  /** The intended comparison holds exactly when the two arrays hold the
      same numbers, each as many times. */
  lemma HasSameNumbersIsSameMultiset(a: seq<int>, b: seq<int>)
    ensures HasSameNumbers(a, b) <==> multiset(a) == multiset(b)
  {
    if multiset(a) == multiset(b) {
      assert |a| == |multiset(a)| == |multiset(b)| == |b|;
      SortedUnique(Sort(a), Sort(b));
    }
  }

  /** As written, the comparison is true exactly when the lengths agree. */
  lemma HasSameNumbersAsWrittenIsLength(a: seq<int>, b: seq<int>)
    ensures HasSameNumbersAsWritten(a, b) <==> |a| == |b|
  {
  }

  /** `[1]` and `[2]` hold different numbers, yet the comparison as written
      says they hold the same. */
  lemma HasSameNumbersAsWrittenAcceptsDifferent()
    ensures HasSameNumbersAsWritten([1], [2])
    ensures !HasSameNumbers([1], [2])
  {
    HasSameNumbersIsSameMultiset([1], [2]);
    assert 1 in multiset([1]) && 1 !in multiset([2]);
  }
}
