/** `encodeURIComponent` as the web app's URL builders use it: every
    character outside the unreserved set is written as the percent-escaped
    bytes of its UTF-8 encoding, hexadecimal digits upper-case. A decoder is
    given beside it, and the two are proved inverse. */
module UriEncoding {
  import opened Common

  /** The characters `encodeURIComponent` leaves as they are. */
  predicate IsUnreserved(c: char)
  {
    IsAlnum(c) || c == '-' || c == '_' || c == '.' || c == '!' || c == '~' || c == '*' || c == '\'' || c == '(' || c == ')'
  }

  /** What an encoded component is made of. */
  predicate IsEncodedChar(c: char)
  {
    IsUnreserved(c) || c == '%'
  }

  datatype UriError = MalformedUri

  // ---------------------------------------------------------------------------
  // UTF-8 and percent escapes
  // ---------------------------------------------------------------------------

  /** The UTF-8 bytes of a Unicode scalar value. */
  function Utf8(c: char): (r: seq<nat>)
    ensures 1 <= |r| <= 4
    ensures forall i | 0 <= i < |r| :: r[i] < 256
  {
    var n := c as int;
    if n < 0x80 then [n]
    else if n < 0x800 then [0xC0 + n / 64, 0x80 + n % 64]
    else if n < 0x10000 then [0xE0 + n / 4096, 0x80 + (n / 64) % 64, 0x80 + n % 64]
    else [0xF0 + n / 262144, 0x80 + (n / 4096) % 64, 0x80 + (n / 64) % 64, 0x80 + n % 64]
  }

  function HexUpper(d: nat): (c: char)
    requires d < 16
    ensures IsHexDigit(c)
  {
    if d < 10 then DigitChar(d) else ('A' as int + d - 10) as char
  }

  function HexValue(c: char): (d: nat)
    requires IsHexDigit(c)
    ensures d < 16
  {
    if IsDigit(c) then DigitValue(c)
    else if 'a' <= c <= 'f' then c as int - 'a' as int + 10
    else c as int - 'A' as int + 10
  }

  /** `%XY` for one byte. */
  function Escape(b: nat): (r: string)
    requires b < 256
    ensures |r| == 3 && r[0] == '%' && IsHexDigit(r[1]) && IsHexDigit(r[2])
    ensures HexValue(r[1]) * 16 + HexValue(r[2]) == b
  {
    [ '%', HexUpper(b / 16), HexUpper(b % 16) ]
  }

  function EscapeAll(bytes: seq<nat>): (r: string)
    requires forall i | 0 <= i < |bytes| :: bytes[i] < 256
    ensures |r| == 3 * |bytes|
  {
    if |bytes| == 0 then "" else Escape(bytes[0]) + EscapeAll(bytes[1..])
  }

  function EncodeChar(c: char): (r: string)
    ensures |r| >= 1
  {
    if IsUnreserved(c) then [c] else EscapeAll(Utf8(c))
  }

  /** `encodeURIComponent`. */
  function Encode(s: string): (r: string)
    ensures forall i | 0 <= i < |r| :: IsEncodedChar(r[i]) || IsHexDigit(r[i])
    ensures |r| >= |s|
  {
    if |s| == 0 then "" else
      var head := EncodeChar(s[0]);
      assert forall i | 0 <= i < |head| :: IsEncodedChar(head[i]) || IsHexDigit(head[i]) by {
        if !IsUnreserved(s[0]) {
          EscapeAllChars(Utf8(s[0]));
        }
      }
      head + Encode(s[1..])
  }

  lemma {:induction false} EscapeAllChars(bytes: seq<nat>)
    requires forall i | 0 <= i < |bytes| :: bytes[i] < 256
    ensures forall i | 0 <= i < |EscapeAll(bytes)| :: EscapeAll(bytes)[i] == '%' || IsHexDigit(EscapeAll(bytes)[i])
    decreases |bytes|
  {
    if |bytes| > 0 {
      EscapeAllChars(bytes[1..]);
    }
  }

  // ---------------------------------------------------------------------------
  // Decoding
  // ---------------------------------------------------------------------------

  /** The byte escaped at position `i`, if there is one. */
  function ByteAt(s: string, i: nat): (r: Option<nat>)
    ensures r.Some? ==> r.value < 256 && i + 3 <= |s|
  {
    if i + 3 <= |s| && s[i] == '%' && IsHexDigit(s[i + 1]) && IsHexDigit(s[i + 2])
    then Some(HexValue(s[i + 1]) * 16 + HexValue(s[i + 2]))
    else None
  }

  /** A continuation byte `10xxxxxx` escaped at position `i`: its six bits. */
  function ContAt(s: string, i: nat): (r: Option<nat>)
    ensures r.Some? ==> r.value < 64 && i + 3 <= |s|
  {
    match ByteAt(s, i)
    case Some(b) => if 0x80 <= b < 0xC0 then Some(b - 0x80) else None
    case None => None
  }

  predicate IsScalar(n: int)
  {
    0 <= n < 0xD800 || 0xE000 <= n < 0x110000
  }

  /** The character escaped at the head of `s` and the number of text
      characters its escapes take, or nothing for a malformed sequence
      (an overlong form, a surrogate, a missing continuation byte). */
  function DecodeHead(s: string): (r: Option<(char, nat)>)
    requires |s| > 0 && s[0] == '%'
    ensures r.Some? ==> 3 <= r.value.1 <= |s|
  {
    match ByteAt(s, 0)
    case None => None
    case Some(b1) =>
      if b1 < 0x80 then Some((b1 as char, 3))
      else if 0xC0 <= b1 < 0xE0 then
        match ContAt(s, 3)
        case None => None
        case Some(c2) =>
          var n := (b1 - 0xC0) * 64 + c2;
          if 0x80 <= n then Some((n as char, 6)) else None
      else if 0xE0 <= b1 < 0xF0 then
        match (ContAt(s, 3), ContAt(s, 6))
        case (Some(c2), Some(c3)) =>
          var n := (b1 - 0xE0) * 4096 + c2 * 64 + c3;
          if 0x800 <= n && IsScalar(n) then Some((n as char, 9)) else None
        case _ => None
      else if 0xF0 <= b1 < 0xF8 then
        match (ContAt(s, 3), ContAt(s, 6), ContAt(s, 9))
        case (Some(c2), Some(c3), Some(c4)) =>
          var n := (b1 - 0xF0) * 262144 + c2 * 4096 + c3 * 64 + c4;
          if 0x10000 <= n < 0x110000 then Some((n as char, 12)) else None
        case _ => None
      else None
  }

  /** `decodeURIComponent`: escapes become the characters they encode,
      everything else stays; a malformed escape is an error. */
  function Decode(s: string): (r: Result<string, UriError>)
    decreases |s|
  {
    if |s| == 0 then Ok("")
    else if s[0] != '%' then
      var rest :- Decode(s[1..]);
      Ok([s[0]] + rest)
    else
      match DecodeHead(s)
      case None => Err(MalformedUri)
      case Some((c, k)) =>
        var rest :- Decode(s[k..]);
        Ok([c] + rest)
  }

  // ---------------------------------------------------------------------------
  // Round trip
  // ---------------------------------------------------------------------------

  lemma EscapeAt(b: nat, s: string, i: nat)
    requires b < 256 && i + 3 <= |s| && s[i..i + 3] == Escape(b)
    ensures ByteAt(s, i) == Some(b)
  {
    assert s[i] == Escape(b)[0] && s[i + 1] == Escape(b)[1] && s[i + 2] == Escape(b)[2];
  }

  lemma {:induction false} EscapeAllSplit(bytes: seq<nat>, k: nat)
    requires forall i | 0 <= i < |bytes| :: bytes[i] < 256
    requires k < |bytes|
    ensures EscapeAll(bytes)[3 * k..3 * k + 3] == Escape(bytes[k])
    decreases k
  {
    if k > 0 {
      EscapeAllSplit(bytes[1..], k - 1);
      assert EscapeAll(bytes) == Escape(bytes[0]) + EscapeAll(bytes[1..]);
    }
  }

  /** Byte `k` of the escapes at the head of `s` reads back. */
  lemma ByteOfEscapes(bytes: seq<nat>, rest: string, k: nat)
    requires forall i | 0 <= i < |bytes| :: bytes[i] < 256
    requires k < |bytes|
    ensures ByteAt(EscapeAll(bytes) + rest, 3 * k) == Some(bytes[k])
  {
    var s := EscapeAll(bytes) + rest;
    EscapeAllSplit(bytes, k);
    HeadSlice(EscapeAll(bytes), rest, 3 * k, 3 * k + 3);
    EscapeAt(bytes[k], s, 3 * k);
  }

  /** A slice within the first part of a concatenation is a slice of that part. */
  lemma HeadSlice(a: string, b: string, i: nat, j: nat)
    requires i <= j <= |a|
    ensures (a + b)[i..j] == a[i..j]
  {
  }

  lemma Decode2(n: int)
    requires 0x80 <= n < 0x800
    ensures 0xC0 <= 0xC0 + n / 64 < 0xE0 && (0xC0 + n / 64 - 0xC0) * 64 + n % 64 == n
  {
  }

  lemma Decode3(n: int)
    requires 0x800 <= n < 0x10000
    ensures 0xE0 <= 0xE0 + n / 4096 < 0xF0
    ensures (n / 4096) * 4096 + ((n / 64) % 64) * 64 + n % 64 == n
  {
    assert n == (n / 64) * 64 + n % 64;
    assert n / 64 == (n / 4096) * 64 + (n / 64) % 64;
  }

  lemma Decode4(n: int)
    requires 0x10000 <= n < 0x110000
    ensures 0xF0 <= 0xF0 + n / 262144 < 0xF8
    ensures (n / 262144) * 262144 + ((n / 4096) % 64) * 4096 + ((n / 64) % 64) * 64 + n % 64 == n
  {
    assert n == (n / 64) * 64 + n % 64;
    assert n / 64 == (n / 4096) * 64 + (n / 64) % 64;
    assert n / 4096 == (n / 262144) * 64 + (n / 4096) % 64;
    assert n / 4096 == (n / 64) / 64;
  }

  /** The escapes of one character decode to that character. */
  lemma DecodeEncodedChar(c: char, rest: string)
    requires !IsUnreserved(c)
    ensures |EncodeChar(c)| > 0 && (EncodeChar(c) + rest)[0] == '%'
    ensures DecodeHead(EncodeChar(c) + rest) == Some((c, |EncodeChar(c)|))
  {
    var n := c as int;
    ByteOfEscapes(Utf8(c), rest, 0);
    if n < 0x80 {
      assert n as char == c;
    } else if n < 0x800 {
      DecodeTwo(c, rest);
    } else if n < 0x10000 {
      DecodeThree(c, rest);
    } else {
      DecodeFour(c, rest);
    }
  }

  lemma DecodeTwo(c: char, rest: string)
    requires !IsUnreserved(c) && 0x80 <= c as int < 0x800
    ensures DecodeHead(EncodeChar(c) + rest) == Some((c, 6))
  {
    var n := c as int;
    var bytes := Utf8(c);
    var s := EncodeChar(c) + rest;
    assert bytes == [0xC0 + n / 64, 0x80 + n % 64];
    ByteOfEscapes(bytes, rest, 0);
    ByteOfEscapes(bytes, rest, 1);
    Decode2(n);
    assert ContAt(s, 3) == Some(n % 64);
    assert n as char == c;
  }

  lemma DecodeThree(c: char, rest: string)
    requires !IsUnreserved(c) && 0x800 <= c as int < 0x10000
    ensures DecodeHead(EncodeChar(c) + rest) == Some((c, 9))
  {
    var n := c as int;
    var bytes := Utf8(c);
    var s := EncodeChar(c) + rest;
    assert bytes == [0xE0 + n / 4096, 0x80 + (n / 64) % 64, 0x80 + n % 64];
    ByteOfEscapes(bytes, rest, 0);
    ByteOfEscapes(bytes, rest, 1);
    ByteOfEscapes(bytes, rest, 2);
    Decode3(n);
    assert ContAt(s, 3) == Some((n / 64) % 64);
    assert ContAt(s, 6) == Some(n % 64);
    assert IsScalar(n);
    assert n as char == c;
  }

  lemma DecodeFour(c: char, rest: string)
    requires !IsUnreserved(c) && 0x10000 <= c as int
    ensures DecodeHead(EncodeChar(c) + rest) == Some((c, 12))
  {
    var n := c as int;
    var bytes := Utf8(c);
    var s := EncodeChar(c) + rest;
    assert bytes == [0xF0 + n / 262144, 0x80 + (n / 4096) % 64, 0x80 + (n / 64) % 64, 0x80 + n % 64];
    ByteOfEscapes(bytes, rest, 0);
    ByteOfEscapes(bytes, rest, 1);
    ByteOfEscapes(bytes, rest, 2);
    ByteOfEscapes(bytes, rest, 3);
    Decode4(n);
    assert ContAt(s, 3) == Some((n / 4096) % 64);
    assert ContAt(s, 6) == Some((n / 64) % 64);
    assert ContAt(s, 9) == Some(n % 64);
    assert n as char == c;
  }

  /** Decoding undoes `encodeURIComponent` on every string. */
  lemma {:induction false} DecodeEncode(s: string)
    ensures Decode(Encode(s)) == Ok(s)
    decreases |s|
  {
    if |s| > 0 {
      var head := EncodeChar(s[0]);
      var tail := Encode(s[1..]);
      assert Encode(s) == head + tail;
      DecodeEncode(s[1..]);
      if IsUnreserved(s[0]) {
        assert (head + tail)[1..] == tail;
      } else {
        DecodeEncodedChar(s[0], tail);
        assert (head + tail)[|head|..] == tail;
      }
      assert [s[0]] + s[1..] == s;
    }
  }

  /** Unreserved text is left as it is. */
  lemma {:induction false} EncodeUnreserved(s: string)
    requires forall i | 0 <= i < |s| :: IsUnreserved(s[i])
    ensures Encode(s) == s
    decreases |s|
  {
    if |s| > 0 {
      EncodeUnreserved(s[1..]);
    }
  }

  /** Two texts with the same encoding are the same text. */
  lemma EncodeInjective(a: string, b: string)
    requires Encode(a) == Encode(b)
    ensures a == b
  {
    DecodeEncode(a);
    DecodeEncode(b);
  }

  /** No separator of a URL survives encoding. */
  lemma EncodeHasNoSeparator(s: string)
    ensures '&' !in Encode(s) && '=' !in Encode(s) && '/' !in Encode(s)
    ensures '?' !in Encode(s) && '#' !in Encode(s) && ':' !in Encode(s) && ',' !in Encode(s)
  {
    var r := Encode(s);
    forall i | 0 <= i < |r| ensures !IsSeparator(r[i]) {
      EncodedNotSeparator(r[i]);
    }
    SeparatorFree(r);
  }

  /** The characters that separate the parts of a URL or of its query. */
  predicate IsSeparator(c: char)
  {
    c == '&' || c == '=' || c == '/' || c == '?' || c == '#' || c == ':' || c == ','
  }

  lemma EncodedNotSeparator(c: char)
    requires IsEncodedChar(c) || IsHexDigit(c)
    ensures !IsSeparator(c)
  {
  }

  lemma SeparatorFree(r: string)
    requires forall i | 0 <= i < |r| :: !IsSeparator(r[i])
    ensures '&' !in r && '=' !in r && '/' !in r
    ensures '?' !in r && '#' !in r && ':' !in r && ',' !in r
  {
  }
}
