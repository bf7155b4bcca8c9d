/** URL patterns such as `items/:itemId<int>`: compilation into a static prefix
    and a list of typed parameters, and matching of request URLs against them.

    The source compiles a pattern into a PCRE expression. Here the compiled
    pattern is the data the expression is built from, and matching is stated as
    an exact decomposition of the URL: prefix, then for every parameter a
    non-empty word of its type followed by the parameter's literal suffix. The
    matcher searches decompositions in the order PCRE's backtracking does (the
    first parameter takes the longest value that lets the rest match, and so
    on), so the captured values are the ones the expression yields. */
module UrlPatterns {
  import opened Common
  import opened HttpMethods
  import TM = TransactionMaps

  /** Characters `trim` removes from patterns and URLs: PHP's defaults plus '/'. */
  predicate IsUrlTrimChar(c: char) { IsPhpTrimChar(c) || c == '/' }

  function TrimUrl(s: string): (r: string)
    ensures |r| > 0 ==> !IsUrlTrimChar(r[0]) && !IsUrlTrimChar(r[|r| - 1])
  {
    Trim(s, IsUrlTrimChar)
  }

  // ---------------------------------------------------------------------------
  // Parameter types
  // ---------------------------------------------------------------------------

  datatype ParamType = Str | Int | Flt | Hex
  {
    /** The key of the type in the pattern language. */
    function Name(): string
    {
      match this
      case Str => "str"
      case Int => "int"
      case Flt => "flt"
      case Hex => "hex"
    }

    /** The expression the source substitutes for a parameter of this type. */
    function Expression(): string
    {
      match this
      case Str => "[A-Za-z0-9_\\-]+"
      case Int => "[0-9]+"
      case Flt => "(?:\\+|\\-)?[0-9]+(?:\\.[0-9]+)?"
      case Hex => "[0-9A-Fa-f]+"
    }
  }

  /** The type registered under `t`; the lookup is case-sensitive. */
  function TypeForName(t: string): (r: Option<ParamType>)
    ensures r.Some? ==> r.value.Name() == t
    ensures r.None? ==> forall p: ParamType :: p.Name() != t
  {
    if t == "str" then Some(Str)
    else if t == "int" then Some(Int)
    else if t == "flt" then Some(Flt)
    else if t == "hex" then Some(Hex)
    else None
  }

  predicate IsStrChar(c: char) { IsAlnum(c) || c == '_' || c == '-' }

  predicate IsDigits(s: string) { |s| > 0 && AllDigits(s) }

  /** `[0-9]+(?:\.[0-9]+)?`: digits, optionally a dot and more digits. */
  predicate IsUnsignedDecimal(s: string)
  {
    match IndexOf(s, '.')
    case None => IsDigits(s)
    case Some(k) => IsDigits(s[..k]) && IsDigits(s[k + 1..])
  }

  /** The language of the `flt` expression: an optional sign, then an unsigned decimal. */
  predicate IsFltWord(s: string)
  {
    if |s| > 0 && (s[0] == '+' || s[0] == '-') then IsUnsignedDecimal(s[1..]) else IsUnsignedDecimal(s)
  }

  /** `v` is a value a parameter of type `t` accepts. */
  predicate IsWord(t: ParamType, v: string)
  {
    match t
    case Str => |v| > 0 && forall i | 0 <= i < |v| :: IsStrChar(v[i])
    case Int => |v| > 0 && forall i | 0 <= i < |v| :: IsDigit(v[i])
    case Flt => IsFltWord(v)
    case Hex => |v| > 0 && forall i | 0 <= i < |v| :: IsHexDigit(v[i])
  }

  /** Every character any parameter type accepts. */
  predicate IsWordChar(c: char) { IsStrChar(c) || c == '+' || c == '.' }

  lemma {:induction false} DigitsChars(s: string)
    requires IsDigits(s)
    ensures forall i | 0 <= i < |s| :: IsWordChar(s[i])
  {
  }

  lemma {:induction false} UnsignedDecimalChars(s: string)
    requires IsUnsignedDecimal(s)
    ensures |s| > 0
    ensures forall i | 0 <= i < |s| :: IsWordChar(s[i])
  {
    match IndexOf(s, '.')
    case None =>
    case Some(k) =>
      DigitsChars(s[..k]);
      DigitsChars(s[k + 1..]);
      forall i | 0 <= i < |s| ensures IsWordChar(s[i]) {
        if i < k { assert s[i] == s[..k][i]; }
        else if i > k { assert s[i] == s[k + 1..][i - k - 1]; }
      }
  }

  lemma {:induction false} WordChars(t: ParamType, v: string)
    requires IsWord(t, v)
    ensures |v| > 0
    ensures forall i | 0 <= i < |v| :: IsWordChar(v[i])
  {
    if t == Flt {
      if |v| > 0 && (v[0] == '+' || v[0] == '-') {
        UnsignedDecimalChars(v[1..]);
        forall i | 0 <= i < |v| ensures IsWordChar(v[i]) {
          if i > 0 { assert v[i] == v[1..][i - 1]; }
        }
      } else {
        UnsignedDecimalChars(v);
      }
    }
  }

  /** Values the unit tests accept and reject for `int`. */
  lemma IntWords()
    ensures IsWord(Int, "9") && IsWord(Int, "10") && IsWord(Int, "0")
    ensures !IsWord(Int, "fa") && !IsWord(Int, "+1") && !IsWord(Int, "-3") && !IsWord(Int, "")
  {
    assert "fa"[0] == 'f';
    assert "+1"[0] == '+';
    assert "-3"[0] == '-';
  }

  /** Values the unit tests accept and reject for `str`. */
  lemma StrWords()
    ensures IsWord(Str, "patata") && IsWord(Str, "BarBar") && IsWord(Str, "bar_bar")
    ensures IsWord(Str, "bar-bar") && IsWord(Str, "a3") && IsWord(Str, "165646")
    ensures !IsWord(Str, "+3") && !IsWord(Str, "<script>") && !IsWord(Str, "")
  {
    assert "+3"[0] == '+';
    assert "<script>"[0] == '<';
  }

  /** Values the unit tests accept and reject for `hex`. */
  lemma HexWords()
    ensures IsWord(Hex, "567890") && IsWord(Hex, "ffffff") && IsWord(Hex, "1a2b3c4d")
    ensures IsWord(Hex, "e") && IsWord(Hex, "ABCDEF")
    ensures !IsWord(Hex, "steve") && !IsWord(Hex, "_F0") && !IsWord(Hex, "#F0")
    ensures !IsWord(Hex, "+3") && !IsWord(Hex, "<script>") && !IsWord(Hex, "")
  {
    assert "steve"[0] == 's';
    assert "_F0"[0] == '_';
    assert "#F0"[0] == '#';
    assert "+3"[0] == '+';
    assert "<script>"[0] == '<';
  }

  /** Unsigned values the unit tests accept for `flt`. */
  lemma FltWords()
    ensures IsWord(Flt, "0.1") && IsWord(Flt, "3")
  {
    assert IndexOf("0.1", '.') == Some(1);
    assert IndexOf("3", '.') == None;
  }

  /** Signed values the unit tests accept for `flt`. */
  lemma SignedFltWords()
    ensures IsWord(Flt, "+1.2") && IsWord(Flt, "-2.3")
  {
    assert "+1.2"[1..] == "1.2";
    assert IndexOf("1.2", '.') == Some(1);
    assert "-2.3"[1..] == "2.3";
    assert IndexOf("2.3", '.') == Some(1);
  }

  /** Values the unit tests reject for `flt`: digits are needed on both sides of a dot. */
  lemma NonFltWords()
    ensures !IsWord(Flt, ".") && !IsWord(Flt, ".2") && !IsWord(Flt, "-.2") && !IsWord(Flt, "+.2")
    ensures !IsWord(Flt, "2.") && !IsWord(Flt, "steve") && !IsWord(Flt, ";)") && !IsWord(Flt, "")
  {
    assert IndexOf(".", '.') == Some(0);
    assert IndexOf(".2", '.') == Some(0);
    assert "-.2"[1..] == ".2";
    assert "+.2"[1..] == ".2";
    assert IndexOf("2.", '.') == Some(1);
    assert "steve"[0] == 's' && IndexOf("steve", '.') == None;
    assert ";)"[0] == ';' && IndexOf(";)", '.') == None;
  }

  // ---------------------------------------------------------------------------
  // Compiled patterns
  // ---------------------------------------------------------------------------

  datatype Param = Param(name: string, ptype: ParamType, suffix: string)

  datatype CompiledPattern = CompiledPattern(prefix: string, params: seq<Param>)

  /** The pattern (already trimmed) and the 1-based position of the offending parameter. */
  datatype PatternError =
    | InvalidParam(pattern: string, index: nat)
    | InvalidType(pattern: string, typeName: string, index: nat)

  /** The groups of `^([A-Z0-9]+)\<([A-Z]+)\>(.*)$` (case-insensitive) in a parameter segment. */
  datatype Segment = Segment(name: string, typeName: string, suffix: string)

  /** `g` is a way to read `seg` as `name<type>suffix`. `.` does not match a line
      feed and `$` also matches before a final line feed, so the suffix has no
      line feed and the segment may carry one more, at its very end. */
  predicate SegmentShape(seg: string, g: Segment)
  {
    && |g.name| > 0 && AllSatisfy(g.name, IsAlnum)
    && |g.typeName| > 0 && AllSatisfy(g.typeName, IsLetter)
    && '\n' !in g.suffix
    && (seg == g.name + "<" + g.typeName + ">" + g.suffix
        || seg == g.name + "<" + g.typeName + ">" + g.suffix + "\n")
  }

  /** No reading of `seg` as `name<type>suffix` exists. */
  ghost predicate Shapeless(seg: string)
  {
    forall g :: !SegmentShape(seg, g)
  }

  /** Some reading of `seg` has `typeName` between its angle brackets. */
  ghost predicate ShapedWithType(seg: string, typeName: string)
  {
    exists g :: SegmentShape(seg, g) && g.typeName == typeName
  }

  /** No parameter type has `typeName` as its name. */
  predicate UnknownTypeName(typeName: string)
  {
    forall t: ParamType :: t.Name() != typeName
  }

  /** The length of the longest prefix of `s` whose characters satisfy `p`. */
  function Run(s: string, p: char -> bool): (r: nat)
    ensures r <= |s|
    ensures forall i | 0 <= i < r :: p(s[i])
    ensures r < |s| ==> !p(s[r])
  {
    if |s| > 0 && p(s[0]) then 1 + Run(s[1..], p) else 0
  }

  lemma RunStopsAt(s: string, a: string, p: char -> bool)
    requires AllSatisfy(a, p) && |a| < |s| && s[..|a|] == a && !p(s[|a|])
    ensures Run(s, p) == |a|
  {
  }

  /** A non-empty run of `p`-characters directly followed by `stop`, and what comes after `stop`. */
  function RunUntil(s: string, p: char -> bool, stop: char): (r: Option<(string, string)>)
    ensures r.Some? ==> |r.value.0| > 0 && AllSatisfy(r.value.0, p) && s == r.value.0 + [stop] + r.value.1
  {
    var n := Run(s, p);
    if n == 0 || n == |s| || s[n] != stop then None
    else
      assert s == s[..n] + [stop] + s[n + 1..];
      Some((s[..n], s[n + 1..]))
  }

  lemma RunUntilFinds(s: string, p: char -> bool, stop: char, a: string, rest: string)
    requires |a| > 0 && AllSatisfy(a, p) && !p(stop) && s == a + [stop] + rest
    ensures RunUntil(s, p, stop) == Some((a, rest))
  {
    assert s[..|a|] == a && s[|a|] == stop;
    RunStopsAt(s, a, p);
    assert s[|a| + 1..] == rest;
  }

  /** `.*$`: text without line feeds, allowing one final line feed that is not captured. */
  function DropFinalNewline(tail: string): (r: Option<string>)
    ensures r.Some? ==> '\n' !in r.value && (tail == r.value || tail == r.value + "\n")
  {
    if '\n' !in tail then Some(tail)
    else if tail[|tail| - 1] == '\n' && '\n' !in tail[..|tail| - 1] then
      assert tail == tail[..|tail| - 1] + "\n";
      Some(tail[..|tail| - 1])
    else None
  }

  lemma DropFinalNewlineFinds(tail: string, x: string)
    requires '\n' !in x && (tail == x || tail == x + "\n")
    ensures DropFinalNewline(tail) == Some(x)
  {
    if tail != x {
      assert tail[..|tail| - 1] == x;
    }
  }

  function ScanSegment(seg: string): (r: Option<Segment>)
    ensures r.Some? ==> SegmentShape(seg, r.value)
  {
    match RunUntil(seg, IsAlnum, '<')
    case None => None
    case Some((name, rest)) =>
      match RunUntil(rest, IsLetter, '>')
      case None => None
      case Some((typeName, tail)) =>
        match DropFinalNewline(tail)
        case None => None
        case Some(suffix) =>
          assert seg == name + "<" + typeName + ">" + tail;
          Some(Segment(name, typeName, suffix))
  }

  /** The reading of a segment is unique, and the scanner finds it. */
  lemma {:induction false} ScanSegmentFinds(seg: string, g: Segment)
    requires SegmentShape(seg, g)
    ensures ScanSegment(seg) == Some(g)
  {
    var tail := if seg == g.name + "<" + g.typeName + ">" + g.suffix then g.suffix else g.suffix + "\n";
    var rest := g.typeName + ">" + tail;
    assert seg == g.name + ['<'] + rest;
    RunUntilFinds(seg, IsAlnum, '<', g.name, rest);
    assert rest == g.typeName + ['>'] + tail;
    RunUntilFinds(rest, IsLetter, '>', g.typeName, tail);
    DropFinalNewlineFinds(tail, g.suffix);
  }

  lemma ScanSegmentNone(seg: string)
    requires ScanSegment(seg).None?
    ensures Shapeless(seg)
  {
    forall g | SegmentShape(seg, g) ensures false {
      ScanSegmentFinds(seg, g);
    }
  }

  /** One `:`-separated segment of a pattern, at 1-based position `index`. */
  function ParseParam(seg: string, pattern: string, index: nat): (r: Result<Param, PatternError>)
    ensures r.Ok? ==> SegmentShape(seg, Segment(r.value.name, r.value.ptype.Name(), r.value.suffix))
    ensures r.Err? ==> r.error.index == index
    ensures r.Err? && r.error.InvalidParam? ==> r.error == InvalidParam(pattern, index) && Shapeless(seg)
    ensures r.Err? && r.error.InvalidType? ==>
      && r.error.pattern == pattern && r.error.index == index
      && ShapedWithType(seg, r.error.typeName)
      && UnknownTypeName(r.error.typeName)
  {
    match ScanSegment(seg)
    case None => ScanSegmentNone(seg); Err(InvalidParam(pattern, index))
    case Some(g) =>
      match TypeForName(g.typeName)
      case None => Err(InvalidType(pattern, g.typeName, index))
      case Some(t) => Ok(Param(g.name, t, g.suffix))
  }

  /** The segments in order; the first one that fails decides the error. */
  function ParseParams(segs: seq<string>, pattern: string, done: nat): (r: Result<seq<Param>, PatternError>)
    ensures r.Ok? ==> |r.value| == |segs|
    ensures r.Ok? ==> forall i | 0 <= i < |segs| ::
      SegmentShape(segs[i], Segment(r.value[i].name, r.value[i].ptype.Name(), r.value[i].suffix))
    ensures r.Err? ==> FailsAt(segs, pattern, done, r.error) && ParsesBefore(segs, pattern, done, r.error.index - done - 1)
  {
    if |segs| == 0 then Ok([])
    else
      match ParseParam(segs[0], pattern, done + 1)
      case Err(e) => Err(e)
      case Ok(p) =>
        var tail := ParseParams(segs[1..], pattern, done + 1);
        if tail.Err? then
          ShiftedErr(segs, pattern, done, tail.error);
          tail
        else
          ShiftedShapes(segs, p, tail.value);
          Ok([p] + tail.value)
  }

  /** The first `n` segments, at positions after `done`, all parse. */
  predicate ParsesBefore(segs: seq<string>, pattern: string, done: nat, n: int)
  {
    n <= |segs| && forall j | 0 <= j < n :: ParseParam(segs[j], pattern, done + j + 1).Ok?
  }

  lemma ShiftedOk(segs: seq<string>, pattern: string, done: nat, n: nat)
    requires 0 < n <= |segs|
    requires ParseParam(segs[0], pattern, done + 1).Ok?
    requires ParsesBefore(segs[1..], pattern, done + 1, n - 1)
    ensures ParsesBefore(segs, pattern, done, n)
  {
    forall j | 0 <= j < n ensures ParseParam(segs[j], pattern, done + j + 1).Ok? {
      if j > 0 { assert segs[j] == segs[1..][j - 1]; }
    }
  }

  /** The segment at the error's position, after `done`, fails with that
      error. */
  predicate FailsAt(segs: seq<string>, pattern: string, done: nat, e: PatternError)
  {
    done < e.index <= done + |segs| && ParseParam(segs[e.index - done - 1], pattern, e.index) == Err(e)
  }

  lemma ShiftedErr(segs: seq<string>, pattern: string, done: nat, e: PatternError)
    requires |segs| > 0 && ParseParam(segs[0], pattern, done + 1).Ok?
    requires FailsAt(segs[1..], pattern, done + 1, e) && ParsesBefore(segs[1..], pattern, done + 1, e.index - (done + 1) - 1)
    ensures FailsAt(segs, pattern, done, e) && ParsesBefore(segs, pattern, done, e.index - done - 1)
  {
    assert segs[e.index - done - 1] == segs[1..][e.index - (done + 1) - 1];
    ShiftedOk(segs, pattern, done, e.index - done - 1);
  }

  lemma ShiftedShapes(segs: seq<string>, p: Param, ps: seq<Param>)
    requires |segs| > 0 && |ps| == |segs| - 1
    requires SegmentShape(segs[0], Segment(p.name, p.ptype.Name(), p.suffix))
    requires forall i | 0 <= i < |segs[1..]| ::
      SegmentShape(segs[1..][i], Segment(ps[i].name, ps[i].ptype.Name(), ps[i].suffix))
    ensures forall i | 0 <= i < |segs| ::
      SegmentShape(segs[i], Segment(([p] + ps)[i].name, ([p] + ps)[i].ptype.Name(), ([p] + ps)[i].suffix))
  {
    forall i | 0 <= i < |segs|
      ensures SegmentShape(segs[i], Segment(([p] + ps)[i].name, ([p] + ps)[i].ptype.Name(), ([p] + ps)[i].suffix))
    {
      if i > 0 { assert segs[i] == segs[1..][i - 1] && ([p] + ps)[i] == ps[i - 1]; }
    }
  }

  /** Compiles a pattern: trims blanks and slashes, takes the text before the
      first ':' as the static prefix and reads every further ':' segment as a
      typed parameter with its literal suffix. */
  function ParsePattern(raw: string): (r: Result<CompiledPattern, PatternError>)
    ensures r.Ok? ==> ':' !in r.value.prefix && StartsWith(TrimUrl(raw), r.value.prefix)
    ensures r.Ok? ==> |r.value.prefix| == |TrimUrl(raw)| || TrimUrl(raw)[|r.value.prefix|] == ':'
    ensures r.Ok? ==> |r.value.params| == |Split(TrimUrl(raw), ':')| - 1
    ensures r.Ok? ==> forall i | 0 <= i < |r.value.params| ::
      SegmentShape(Split(TrimUrl(raw), ':')[i + 1],
                   Segment(r.value.params[i].name, r.value.params[i].ptype.Name(), r.value.params[i].suffix))
    ensures r.Err? ==> r.error.pattern == TrimUrl(raw)
  {
    var p := TrimUrl(raw);
    var parts := Split(p, ':');
    var res := ParseParams(parts[1..], p, 0);
    if res.Err? then
      ErrorNamesPattern(parts[1..], p, res.error);
      Err(res.error)
    else
      CompiledShape(p, parts, res.value);
      Ok(CompiledPattern(parts[0], res.value))
  }

  /** A parameter error names the pattern it was found in. */
  lemma ErrorNamesPattern(segs: seq<string>, pattern: string, e: PatternError)
    requires ParseParams(segs, pattern, 0) == Err(e)
    ensures e.pattern == pattern
  {
    assert FailsAt(segs, pattern, 0, e);
  }

  /** The prefix is the text before the first colon and each parameter has
      the shape of the segment after its colon. */
  lemma CompiledShape(p: string, parts: seq<string>, ps: seq<Param>)
    requires parts == Split(p, ':')
    requires |ps| == |parts[1..]|
    requires forall i | 0 <= i < |parts[1..]| ::
      SegmentShape(parts[1..][i], Segment(ps[i].name, ps[i].ptype.Name(), ps[i].suffix))
    ensures ':' !in parts[0] && StartsWith(p, parts[0])
    ensures |parts[0]| == |p| || p[|parts[0]|] == ':'
    ensures |ps| == |parts| - 1
    ensures forall i | 0 <= i < |ps| ::
      SegmentShape(parts[i + 1], Segment(ps[i].name, ps[i].ptype.Name(), ps[i].suffix))
  {
    PrefixOfSplit(p, parts);
    ShapesShift(parts, ps);
  }

  lemma ShapesShift(parts: seq<string>, ps: seq<Param>)
    requires |parts| > 0 && |ps| == |parts| - 1
    requires forall i | 0 <= i < |ps| :: SegmentShape(parts[1..][i], Segment(ps[i].name, ps[i].ptype.Name(), ps[i].suffix))
    ensures forall i | 0 <= i < |ps| :: SegmentShape(parts[i + 1], Segment(ps[i].name, ps[i].ptype.Name(), ps[i].suffix))
  {
    forall i | 0 <= i < |ps|
      ensures SegmentShape(parts[i + 1], Segment(ps[i].name, ps[i].ptype.Name(), ps[i].suffix))
    {
      assert parts[1..][i] == parts[i + 1];
    }
  }

  lemma PrefixOfSplit(p: string, parts: seq<string>)
    requires parts == Split(p, ':')
    ensures StartsWith(p, parts[0])
    ensures |parts[0]| == |p| || p[|parts[0]|] == ':'
  {
    if |parts| > 1 {
      assert p == parts[0] + [':'] + Join(parts[1..], ':');
      assert p[..|parts[0]|] == parts[0];
    }
  }

  /** Leading and trailing blanks and slashes do not change the compiled pattern. */
  lemma ParsePatternIgnoresSurroundings(x: string, raw: string, y: string)
    requires AllSatisfy(x, IsUrlTrimChar) && AllSatisfy(y, IsUrlTrimChar)
    ensures ParsePattern(x + raw + y) == ParsePattern(raw)
  {
    TrimAbsorbs(x, raw, y, IsUrlTrimChar);
  }

  /** A pattern without ':' compiles to its trimmed text and no parameters. */
  lemma ParsePatternWithoutParams(raw: string)
    requires ':' !in TrimUrl(raw)
    ensures ParsePattern(raw) == Ok(CompiledPattern(TrimUrl(raw), []))
  {
  }

  /** A segment without '<' cannot be a parameter (as `a-param/` or `notype/`). */
  lemma SegmentNeedsAngle(seg: string)
    requires '<' !in seg
    ensures ScanSegment(seg).None?
  {
  }

  lemma NameIsLetters(t: ParamType)
    ensures |t.Name()| > 0 && AllSatisfy(t.Name(), IsLetter)
  {
  }

  /** Any alphanumeric name (`0Level` included), any known type and any suffix
      without line feeds make a parameter, recorded as written. */
  lemma ParseParamAccepts(name: string, t: ParamType, suffix: string, pattern: string, index: nat)
    requires |name| > 0 && AllSatisfy(name, IsAlnum) && '\n' !in suffix
    ensures ParseParam(name + "<" + t.Name() + ">" + suffix, pattern, index) == Ok(Param(name, t, suffix))
  {
    NameIsLetters(t);
    ScanSegmentFinds(name + "<" + t.Name() + ">" + suffix, Segment(name, t.Name(), suffix));
  }

  /** Blanks and slashes around a pattern or URL are dropped by trimming. */
  lemma TrimSlashes(raw: string, x: string, t: string, y: string)
    requires raw == x + t + y
    requires AllSatisfy(x, IsUrlTrimChar) && AllSatisfy(y, IsUrlTrimChar)
    requires |t| > 0 && !IsUrlTrimChar(t[0]) && !IsUrlTrimChar(t[|t| - 1])
    ensures TrimUrl(raw) == t
  {
    TrimAbsorbs(x, t, y, IsUrlTrimChar);
    TrimKeeps(t, IsUrlTrimChar);
  }

  /** A pattern with one parameter: the prefix is the text before ':' and the
      parameter keeps its name, type and suffix. */
  lemma {:induction false} ParsePatternOneParam(raw: string, prefix: string, name: string, t: ParamType, suffix: string)
    requires TrimUrl(raw) == prefix + ":" + name + "<" + t.Name() + ">" + suffix
    requires ':' !in prefix && ':' !in suffix && '\n' !in suffix
    requires |name| > 0 && AllSatisfy(name, IsAlnum)
    ensures ParsePattern(raw) == Ok(CompiledPattern(prefix, [Param(name, t, suffix)]))
  {
    var seg := name + "<" + t.Name() + ">" + suffix;
    OneParamParts(TrimUrl(raw), prefix, name, t, suffix);
    ParsePatternOfParts(raw, [prefix, seg], [Param(name, t, suffix)]);
  }

  lemma OneParamParts(p: string, prefix: string, name: string, t: ParamType, suffix: string)
    requires p == prefix + ":" + name + "<" + t.Name() + ">" + suffix
    requires ':' !in prefix && ':' !in suffix && '\n' !in suffix
    requires |name| > 0 && AllSatisfy(name, IsAlnum)
    ensures var parts := [prefix, name + "<" + t.Name() + ">" + suffix];
      Split(p, ':') == parts && ParseParams(parts[1..], p, 0) == Ok([Param(name, t, suffix)])
  {
    var seg := name + "<" + t.Name() + ">" + suffix;
    SegmentWithoutColon(name, t, suffix);
    ColonSplit(p, prefix, seg);
    ParseParamAccepts(name, t, suffix, p, 1);
    OneParam(seg, p, Param(name, t, suffix));
    assert [prefix, seg][1..] == [seg];
  }

  lemma ParsePatternOfParts(raw: string, parts: seq<string>, ps: seq<Param>)
    requires Split(TrimUrl(raw), ':') == parts
    requires ParseParams(parts[1..], TrimUrl(raw), 0) == Ok(ps)
    ensures ParsePattern(raw) == Ok(CompiledPattern(parts[0], ps))
  {
  }

  lemma ColonSplit(p: string, prefix: string, seg: string)
    requires p == prefix + ":" + seg && ':' !in prefix && ':' !in seg
    ensures Split(p, ':') == [prefix, seg]
  {
    assert p == prefix + [':'] + seg;
    SplitOnce(p, ':', prefix, seg);
  }

  lemma OneParam(seg: string, pattern: string, q: Param)
    requires ParseParam(seg, pattern, 1) == Ok(q)
    ensures ParseParams([seg], pattern, 0) == Ok([q])
  {
    var segs := [seg];
    assert segs[0] == seg && segs[1..] == [];
    assert ParseParams(segs[1..], pattern, 1) == Ok([]);
    assert [q] + [] == [q];
  }

  lemma SegmentWithoutColon(name: string, t: ParamType, suffix: string)
    requires ':' !in suffix && AllSatisfy(name, IsAlnum)
    ensures ':' !in name + "<" + t.Name() + ">" + suffix
  {
    NameIsLetters(t);
    var seg := name + "<" + t.Name() + ">" + suffix;
    forall i | 0 <= i < |seg| ensures seg[i] != ':' {
      if i < |name| { assert seg[i] == name[i]; }
      else if i == |name| { }
      else if i < |name| + 1 + |t.Name()| { assert seg[i] == t.Name()[i - |name| - 1]; }
      else if i == |name| + 1 + |t.Name()| { }
      else { assert seg[i] == suffix[i - |name| - 2 - |t.Name()|]; }
    }
  }

  function StaticPrefix(c: CompiledPattern): string { c.prefix }

  function ParamNames(c: CompiledPattern): (r: seq<string>)
    ensures |r| == |c.params| && forall i | 0 <= i < |r| :: r[i] == c.params[i].name
  {
    seq(|c.params|, i requires 0 <= i < |c.params| => c.params[i].name)
  }

  // ---------------------------------------------------------------------------
  // The expression text
  // ---------------------------------------------------------------------------

  /** The characters `preg_quote` escapes, with '/' as the delimiter. */
  predicate IsQuotable(c: char)
  {
    || c == '.' || c == '\\' || c == '+' || c == '*' || c == '?' || c == '[' || c == '^' || c == ']'
    || c == '$' || c == '(' || c == ')' || c == '{' || c == '}' || c == '=' || c == '!' || c == '<'
    || c == '>' || c == '|' || c == ':' || c == '-' || c == '#' || c == '/'
  }

  function QuoteChar(c: char): string
  {
    if c == '\0' then "\\000" else if IsQuotable(c) then ['\\', c] else [c]
  }

  /** PHP's `preg_quote($s, '/')`. */
  function PregQuote(s: string): (r: string)
    ensures |r| >= |s|
  {
    if |s| == 0 then "" else QuoteChar(s[0]) + PregQuote(s[1..])
  }

  /** Reads a quoted string back. */
  function Unquote(q: string): string
  {
    if |q| == 0 then ""
    else if q[0] == '\\' && |q| >= 4 && q[1] == '0' && q[2] == '0' && q[3] == '0' then ['\0'] + Unquote(q[4..])
    else if q[0] == '\\' && |q| >= 2 then [q[1]] + Unquote(q[2..])
    else [q[0]] + Unquote(q[1..])
  }

  lemma UnquoteQuoteChar(c: char, rest: string)
    ensures Unquote(QuoteChar(c) + rest) == [c] + Unquote(rest)
  {
    var q := QuoteChar(c) + rest;
    if c == '\0' {
      assert q[4..] == rest;
    } else if IsQuotable(c) {
      assert q[2..] == rest;
    } else {
      assert q[1..] == rest;
    }
  }

  /** Quoting loses nothing: the original text can be read back. */
  lemma {:induction false} UnquotePregQuote(s: string)
    ensures Unquote(PregQuote(s)) == s
  {
    if |s| > 0 {
      UnquoteQuoteChar(s[0], PregQuote(s[1..]));
      UnquotePregQuote(s[1..]);
      assert s == [s[0]] + s[1..];
    }
  }

  function ParamsExpression(ps: seq<Param>): string
  {
    if |ps| == 0 then ""
    else "(" + ps[0].ptype.Expression() + ")" + PregQuote(ps[0].suffix) + ParamsExpression(ps[1..])
  }

  /** The expression `getRegExp` returns. */
  function RegExp(c: CompiledPattern): string
  {
    "/^\\/?" + PregQuote(c.prefix) + ParamsExpression(c.params) + "\\/?$/"
  }

  // ---------------------------------------------------------------------------
  // Matching
  // ---------------------------------------------------------------------------

  /** The text a decomposition spells: each value followed by its suffix. */
  function Interleave(vs: seq<string>, ps: seq<Param>): string
    requires |vs| == |ps|
  {
    if |ps| == 0 then "" else vs[0] + ps[0].suffix + Interleave(vs[1..], ps[1..])
  }

  /** `url` reads exactly as value₁·suffix₁·…·valueₙ·suffixₙ with each value a word of its type. */
  predicate Decomposes(url: string, ps: seq<Param>, vs: seq<string>)
  {
    && |vs| == |ps|
    && url == Interleave(vs, ps)
    && forall i | 0 <= i < |ps| :: IsWord(ps[i].ptype, vs[i])
  }

  lemma DecomposesCons(url: string, ps: seq<Param>, vs: seq<string>)
    requires |ps| > 0 && |vs| == |ps|
    ensures Decomposes(url, ps, vs) <==>
      && IsWord(ps[0].ptype, vs[0])
      && url == vs[0] + ps[0].suffix + Interleave(vs[1..], ps[1..])
      && Decomposes(url[|vs[0]| + |ps[0].suffix|..], ps[1..], vs[1..])
  {
    if url == vs[0] + ps[0].suffix + Interleave(vs[1..], ps[1..]) {
      assert url[|vs[0]| + |ps[0].suffix|..] == Interleave(vs[1..], ps[1..]);
    }
    if Decomposes(url, ps, vs) {
      assert forall i | 0 <= i < |ps[1..]| :: ps[1..][i] == ps[i + 1] && vs[1..][i] == vs[i + 1];
    }
    if && IsWord(ps[0].ptype, vs[0])
       && url == vs[0] + ps[0].suffix + Interleave(vs[1..], ps[1..])
       && Decomposes(url[|vs[0]| + |ps[0].suffix|..], ps[1..], vs[1..]) {
      forall i | 0 <= i < |ps| ensures IsWord(ps[i].ptype, vs[i]) {
        if i > 0 { assert ps[1..][i - 1] == ps[i] && vs[1..][i - 1] == vs[i]; }
      }
    }
  }

  /** The backtracking search: values for `ps` that spell `url` exactly. */
  function MatchParams(url: string, ps: seq<Param>): (r: Option<seq<string>>)
    ensures r.Some? ==> Decomposes(url, ps, r.value)
    decreases |ps|, 1, 0
  {
    if |ps| == 0 then (if url == "" then Some([]) else None)
    else TryLength(url, ps, |url|)
  }

  /** The first parameter tries values of length `k`, `k`-1, …, 1 (longest
      first, as a greedy PCRE quantifier does) until the rest of the URL matches. */
  function TryLength(url: string, ps: seq<Param>, k: nat): (r: Option<seq<string>>)
    requires |ps| > 0 && k <= |url|
    ensures r.Some? ==> Decomposes(url, ps, r.value) && |r.value[0]| <= k
    decreases |ps|, 0, k
  {
    if k == 0 then None
    else
      var v := url[..k];
      var rest := url[k..];
      var s := ps[0].suffix;
      if IsWord(ps[0].ptype, v) && StartsWith(rest, s) then
        match MatchParams(rest[|s|..], ps[1..])
        case Some(vs) =>
          assert url == v + s + rest[|s|..];
          DecomposesCons(url, ps, [v] + vs);
          Some([v] + vs)
        case None => TryLength(url, ps, k - 1)
      else TryLength(url, ps, k - 1)
  }

  /** Whenever some decomposition exists, the search finds one. */
  lemma {:induction false} MatchParamsComplete(url: string, ps: seq<Param>, vs: seq<string>)
    requires Decomposes(url, ps, vs)
    ensures MatchParams(url, ps).Some?
    decreases |ps|, 1, 0
  {
    if |ps| > 0 {
      DecomposesCons(url, ps, vs);
      TryLengthComplete(url, ps, vs, |url|);
    }
  }

  /** The search from length `k` down finds a decomposition whose first value is
      at least as long as that of any decomposition whose first value fits in `k`. */
  lemma {:induction false} TryLengthComplete(url: string, ps: seq<Param>, vs: seq<string>, k: nat)
    requires |ps| > 0 && k <= |url| && Decomposes(url, ps, vs) && |vs[0]| <= k
    ensures TryLength(url, ps, k).Some?
    ensures |TryLength(url, ps, k).value[0]| >= |vs[0]|
    decreases |ps|, 0, k
  {
    if k == |vs[0]| {
      ExactLengthMatches(url, ps, vs);
      TryLengthAccepts(url, ps, k);
    } else {
      TryLengthComplete(url, ps, vs, k - 1);
      TryLengthGrows(url, ps, k);
    }
  }

  /** A length whose prefix passes the test is taken. */
  lemma TryLengthAccepts(url: string, ps: seq<Param>, k: nat)
    requires |ps| > 0 && 0 < k <= |url|
    requires IsWord(ps[0].ptype, url[..k]) && StartsWith(url[k..], ps[0].suffix)
    requires MatchParams(url[k..][|ps[0].suffix|..], ps[1..]).Some?
    ensures TryLength(url, ps, k).Some? && |TryLength(url, ps, k).value[0]| == k
  {
  }

  /** Allowing one more character never loses a match nor shortens the first
      value. */
  lemma TryLengthGrows(url: string, ps: seq<Param>, k: nat)
    requires |ps| > 0 && 0 < k <= |url|
    ensures TryLength(url, ps, k - 1).Some? ==>
      TryLength(url, ps, k).Some? && |TryLength(url, ps, k).value[0]| >= |TryLength(url, ps, k - 1).value[0]|
  {
  }

  /** The first value of a decomposition passes the test `TryLength` makes at
      its length. */
  lemma ExactLengthMatches(url: string, ps: seq<Param>, vs: seq<string>)
    requires |ps| > 0 && Decomposes(url, ps, vs)
    ensures 0 < |vs[0]| <= |url|
    ensures var rest := url[|vs[0]|..];
      && IsWord(ps[0].ptype, url[..|vs[0]|]) && StartsWith(rest, ps[0].suffix)
      && MatchParams(rest[|ps[0].suffix|..], ps[1..]).Some?
    decreases |ps|, 0, 0
  {
    DecomposesCons(url, ps, vs);
    WordChars(ps[0].ptype, vs[0]);
    var rest := url[|vs[0]|..];
    var s := ps[0].suffix;
    assert url[..|vs[0]|] == vs[0];
    assert rest == s + Interleave(vs[1..], ps[1..]);
    assert rest[..|s|] == s;
    assert rest[|s|..] == Interleave(vs[1..], ps[1..]);
    MatchParamsComplete(rest[|s|..], ps[1..], vs[1..]);
  }

  /** The values found are the greedy ones: no decomposition gives the first
      parameter a longer value. */
  lemma MatchParamsGreedy(url: string, ps: seq<Param>, vs: seq<string>)
    requires Decomposes(url, ps, vs) && |ps| > 0
    ensures MatchParams(url, ps).Some? && |MatchParams(url, ps).value[0]| >= |vs[0]|
  {
    DecomposesCons(url, ps, vs);
    TryLengthComplete(url, ps, vs, |url|);
  }

  lemma CharAfter(url: string, a: string, rest: string)
    requires url == a + rest && |rest| > 0
    ensures url[|a|] == rest[0]
  {
  }

  /** When every suffix but the last begins with a character no parameter type
      accepts (as '/' in the application's patterns), a URL has at most one
      decomposition. */
  lemma {:induction false} DecompositionUnique(url: string, ps: seq<Param>, vs: seq<string>, ws: seq<string>)
    requires forall i | 0 <= i < |ps| - 1 :: |ps[i].suffix| > 0 && !IsWordChar(ps[i].suffix[0])
    requires Decomposes(url, ps, vs) && Decomposes(url, ps, ws)
    ensures vs == ws
    decreases |ps|
  {
    if |ps| > 0 {
      DecomposesCons(url, ps, vs);
      DecomposesCons(url, ps, ws);
      WordChars(ps[0].ptype, vs[0]);
      WordChars(ps[0].ptype, ws[0]);
      var s := ps[0].suffix;
      if |ps| == 1 {
        assert Interleave(vs[1..], ps[1..]) == "" == Interleave(ws[1..], ps[1..]);
        assert url == vs[0] + s && url == ws[0] + s;
        assert vs[0] == url[..|url| - |s|] == ws[0];
      } else {
        if |vs[0]| < |ws[0]| {
          CharAfter(url, vs[0], s + Interleave(vs[1..], ps[1..]));
          assert false;
        }
        if |ws[0]| < |vs[0]| {
          CharAfter(url, ws[0], s + Interleave(ws[1..], ps[1..]));
          assert false;
        }
        assert vs[0] == url[..|vs[0]|] == ws[0];
        var rest := url[|vs[0]| + |s|..];
        DecompositionUnique(rest, ps[1..], vs[1..], ws[1..]);
        assert vs == [vs[0]] + vs[1..] && ws == [ws[0]] + ws[1..];
      }
    } else {
      assert vs == [] == ws;
    }
  }

  /** The captures stored by parameter name, in parameter order, so that a
      later parameter with the same name overwrites an earlier one. */
  function Captures(ps: seq<Param>, vs: seq<string>): map<string, string>
    requires |vs| == |ps|
  {
    if |ps| == 0 then map[]
    else
      var n := |ps| - 1;
      Captures(ps[..n], vs[..n])[ps[n].name := vs[n]]
  }

  /** Every parameter name is captured. */
  lemma {:induction false} CapturesHaveNames(ps: seq<Param>, vs: seq<string>)
    requires |vs| == |ps|
    ensures forall i | 0 <= i < |ps| :: ps[i].name in Captures(ps, vs)
  {
    if |ps| > 0 {
      var n := |ps| - 1;
      CapturesHaveNames(ps[..n], vs[..n]);
      forall i | 0 <= i < n ensures ps[i].name in Captures(ps, vs) {
        assert ps[..n][i] == ps[i];
      }
    }
  }

  /** Nothing but parameter names is captured. */
  lemma {:induction false} CapturesOnlyNames(ps: seq<Param>, vs: seq<string>, k: string)
    requires |vs| == |ps| && k in Captures(ps, vs)
    ensures exists i | 0 <= i < |ps| :: ps[i].name == k
  {
    var n := |ps| - 1;
    if ps[n].name != k {
      CapturesOnlyNames(ps[..n], vs[..n], k);
      var i :| 0 <= i < n && ps[..n][i].name == k;
      assert ps[i].name == k;
    }
  }

  /** A name holds the value of the last parameter that carries it. */
  lemma {:induction false} CapturesLastWins(ps: seq<Param>, vs: seq<string>, i: nat)
    requires |vs| == |ps| && i < |ps|
    requires forall j | i < j < |ps| :: ps[j].name != ps[i].name
    ensures ps[i].name in Captures(ps, vs) && Captures(ps, vs)[ps[i].name] == vs[i]
  {
    var n := |ps| - 1;
    if i < n {
      assert ps[..n][i] == ps[i] && vs[..n][i] == vs[i];
      assert forall j | i < j < n :: ps[..n][j] == ps[j];
      CapturesLastWins(ps[..n], vs[..n], i);
    }
  }

  /** A pattern together with the transactions it serves. */
  datatype UrlPattern = UrlPattern(compiled: CompiledPattern, transactions: TM.TransactionMap)

  /** What a successful match hands to the transaction's constructor: the class
      to build and the GET parameters with the captures merged in. */
  datatype Dispatch = Dispatch(transactionClass: string, get: map<string, string>)

  /** The part of the trimmed URL after the static prefix. */
  function AfterPrefix(c: CompiledPattern, url: string): string
    requires StartsWith(TrimUrl(url), c.prefix)
  {
    TrimUrl(url)[|c.prefix|..]
  }

  /** `match`: `None` is PHP's `null`. */
  function Match(p: UrlPattern, m: HttpMethod, url: string, get: map<string, string>): (r: Option<Dispatch>)
    ensures !TM.ManagesMethod(p.transactions, m) ==> r.None?
    ensures !StartsWith(TrimUrl(url), p.compiled.prefix) ==> r.None?
    ensures r.Some? ==> TM.Get(p.transactions, m) == Some(r.value.transactionClass)
    ensures r.Some? ==> StartsWith(TrimUrl(url), p.compiled.prefix)
    ensures r.Some? ==> exists vs ::
      && Decomposes(AfterPrefix(p.compiled, url), p.compiled.params, vs)
      && r.value.get == get + Captures(p.compiled.params, vs)
  {
    if !TM.ManagesMethod(p.transactions, m) then None
    else
      var u := TrimUrl(url);
      var c := p.compiled;
      if !StartsWith(u, c.prefix) then None
      else
        match MatchParams(u[|c.prefix|..], c.params)
        case None => None
        case Some(vs) => Some(Dispatch(TM.Get(p.transactions, m).value, get + Captures(c.params, vs)))
  }

  /** Without parameters a URL matches exactly when, trimmed, it is the prefix;
      in particular a repeated path (`foo/barfoo/bar` against `foo/bar`) does not. */
  lemma MatchWithoutParams(p: UrlPattern, m: HttpMethod, url: string, get: map<string, string>)
    requires TM.ManagesMethod(p.transactions, m) && p.compiled.params == []
    ensures Match(p, m, url, get).Some? <==> TrimUrl(url) == p.compiled.prefix
  {
    var u := TrimUrl(url);
    if StartsWith(u, p.compiled.prefix) && u != p.compiled.prefix {
      assert u[|p.compiled.prefix|..] != "";
    }
  }

  /** A URL whose remainder decomposes is matched whenever the method is managed. */
  lemma MatchComplete(p: UrlPattern, m: HttpMethod, url: string, get: map<string, string>, vs: seq<string>)
    requires TM.ManagesMethod(p.transactions, m)
    requires StartsWith(TrimUrl(url), p.compiled.prefix)
    requires Decomposes(AfterPrefix(p.compiled, url), p.compiled.params, vs)
    ensures Match(p, m, url, get).Some?
  {
    MatchParamsComplete(AfterPrefix(p.compiled, url), p.compiled.params, vs);
  }

  /** With slash-led suffixes the captures are exactly the URL's unique decomposition. */
  lemma MatchCaptures(p: UrlPattern, m: HttpMethod, url: string, get: map<string, string>, vs: seq<string>)
    requires TM.ManagesMethod(p.transactions, m)
    requires StartsWith(TrimUrl(url), p.compiled.prefix)
    requires forall i | 0 <= i < |p.compiled.params| - 1 ::
      |p.compiled.params[i].suffix| > 0 && !IsWordChar(p.compiled.params[i].suffix[0])
    requires Decomposes(AfterPrefix(p.compiled, url), p.compiled.params, vs)
    ensures Match(p, m, url, get) == Some(Dispatch(TM.Get(p.transactions, m).value, get + Captures(p.compiled.params, vs)))
  {
    var rest := AfterPrefix(p.compiled, url);
    MatchParamsComplete(rest, p.compiled.params, vs);
    DecompositionUnique(rest, p.compiled.params, vs, MatchParams(rest, p.compiled.params).value);
  }

  /** A one-parameter pattern matches prefix · value · suffix, capturing the value
      under the parameter's name. */
  lemma MatchOneParam(p: UrlPattern, m: HttpMethod, url: string, get: map<string, string>, v: string)
    requires TM.ManagesMethod(p.transactions, m) && |p.compiled.params| == 1
    requires IsWord(p.compiled.params[0].ptype, v)
    requires TrimUrl(url) == p.compiled.prefix + v + p.compiled.params[0].suffix
    ensures Match(p, m, url, get) == Some(Dispatch(TM.Get(p.transactions, m).value, get[p.compiled.params[0].name := v]))
  {
    var c := p.compiled;
    var q := c.params[0];
    OneParamRest(c, url, v);
    MatchCaptures(p, m, url, get, [v]);
    MergeOne(get, q.name, v);
  }

  lemma MergeOne(get: map<string, string>, k: string, v: string)
    ensures get + map[k := v] == get[k := v]
  {
  }

  /** What follows the prefix of a one-parameter URL is its word and the
      parameter's suffix. */
  lemma OneParamRest(c: CompiledPattern, url: string, v: string)
    requires |c.params| == 1 && IsWord(c.params[0].ptype, v)
    requires TrimUrl(url) == c.prefix + v + c.params[0].suffix
    ensures StartsWith(TrimUrl(url), c.prefix)
    ensures Decomposes(AfterPrefix(c, url), c.params, [v])
    ensures Captures(c.params, [v]) == map[c.params[0].name := v]
  {
    var q := c.params[0];
    assert TrimUrl(url)[..|c.prefix|] == c.prefix;
    assert AfterPrefix(c, url) == v + q.suffix;
    assert [q] == c.params;
    OneWordDecomposes(q, v);
  }

  lemma OneWordDecomposes(q: Param, v: string)
    requires IsWord(q.ptype, v)
    ensures Decomposes(v + q.suffix, [q], [v])
    ensures Captures([q], [v]) == map[q.name := v]
  {
    assert Interleave([v], [q]) == v + q.suffix + Interleave([], []);
    assert [q][..0] == [] && [v][..0] == [];
  }
}
