/**
 * ECMAScript `encodeURIComponent` (ECMA-262 5.1, section 15.1.3.4) and its
 * inverse `decodeURIComponent` (section 15.1.3.2), over strings of Unicode
 * scalar values. A character of the unreserved set passes through; every
 * other character is written as the UTF-8 octets of its code point, each as
 * `%XX` with upper-case hexadecimal digits (the percent-encoding of section
 * 2.1 of RFC 3986).
 */
module UriEncoding {
  import opened Wrappers

  type Byte = x: int | 0 <= x < 256

  /** The characters `encodeURIComponent` leaves unescaped: uriUnreserved of ECMA-262. */
  predicate Unreserved(c: char) {
    ('A' <= c <= 'Z') || ('a' <= c <= 'z') || ('0' <= c <= '9') ||
    c == '-' || c == '_' || c == '.' || c == '!' || c == '~' ||
    c == '*' || c == '\'' || c == '(' || c == ')'
  }

  predicate UpperHexDigit(c: char) {
    ('0' <= c <= '9') || ('A' <= c <= 'F')
  }

  /** A character that can appear in the output of `encodeURIComponent`. */
  predicate EncodedChar(c: char) {
    Unreserved(c) || c == '%' || UpperHexDigit(c)
  }

  function HexDigit(d: int): (c: char)
    requires 0 <= d < 16
    ensures UpperHexDigit(c)
  {
    if d < 10 then ('0' as int + d) as char else ('A' as int + d - 10) as char
  }

  /** The value of a hexadecimal digit of either case, as `decodeURIComponent` accepts it. */
  function HexValue(c: char): (r: Option<int>)
    ensures r.Some? ==> 0 <= r.value < 16
  {
    if '0' <= c <= '9' then Some(c as int - '0' as int)
    else if 'A' <= c <= 'F' then Some(c as int - 'A' as int + 10)
    else if 'a' <= c <= 'f' then Some(c as int - 'a' as int + 10)
    else None
  }

  predicate IsScalar(n: int) {
    (0 <= n < 0xD800) || (0xE000 <= n < 0x11_0000)
  }

  /** The UTF-8 octets of a code point (RFC 3629, section 3). */
  function Utf8(c: char): (bs: seq<Byte>)
    ensures 1 <= |bs| <= 4
  {
    var n := c as int;
    if n < 0x80 then [n]
    else if n < 0x800 then [0xC0 + n / 64, 0x80 + n % 64]
    else if n < 0x1_0000 then [0xE0 + n / 4096, 0x80 + n / 64 % 64, 0x80 + n % 64]
    else [0xF0 + n / 0x4_0000, 0x80 + n / 4096 % 64, 0x80 + n / 64 % 64, 0x80 + n % 64]
  }

  /** One octet as `%XX`. */
  function Percent(b: Byte): (r: string)
    ensures |r| == 3 && r[0] == '%'
  {
    ['%', HexDigit(b / 16), HexDigit(b % 16)]
  }

  function PercentAll(bs: seq<Byte>): (r: string)
    ensures |r| == 3 * |bs|
  {
    if bs == [] then [] else Percent(bs[0]) + PercentAll(bs[1..])
  }

  function EncodeChar(c: char): string {
    if Unreserved(c) then [c] else PercentAll(Utf8(c))
  }

  /**
   * `encodeURIComponent(s)`. Its output holds only unreserved characters,
   * `%` and upper-case hexadecimal digits, so in particular never `$`, `&`,
   * `#` or `{`.
   */
  function EncodeURIComponent(s: string): (r: string)
    ensures |r| >= |s|
    ensures forall i :: 0 <= i < |r| ==> EncodedChar(r[i])
  {
    if s == [] then []
    else
      EncodedCharsOfEncodeChar(s[0]);
      EncodeChar(s[0]) + EncodeURIComponent(s[1..])
  }

  lemma {:induction false} EncodedCharsOfPercentAll(bs: seq<Byte>)
    ensures forall i :: 0 <= i < |PercentAll(bs)| ==> EncodedChar(PercentAll(bs)[i])
  {
    if bs != [] {
      EncodedCharsOfPercentAll(bs[1..]);
    }
  }

  lemma EncodedCharsOfEncodeChar(c: char)
    ensures |EncodeChar(c)| >= 1
    ensures forall i :: 0 <= i < |EncodeChar(c)| ==> EncodedChar(EncodeChar(c)[i])
  {
    if !Unreserved(c) {
      EncodedCharsOfPercentAll(Utf8(c));
    }
  }

  // ---------------------------------------------------------------------
  // decodeURIComponent

  /** The octet written as `%XX` at the front of `t`, if there is one. */
  function PercentByte(t: string): (r: Option<Byte>)
  {
    if |t| < 3 || t[0] != '%' then None
    else match (HexValue(t[1]), HexValue(t[2]))
      case (Some(hi), Some(lo)) => Some(hi * 16 + lo)
      case _ => None
  }

  /** The `k` octets written as `%XX%XX…` at the front of `t`. */
  function PercentBytes(t: string, k: nat): (r: Option<seq<Byte>>)
    ensures r.Some? ==> |r.value| == k && 3 * k <= |t|
  {
    if k == 0 then Some([])
    else match PercentByte(t)
      case None => None
      case Some(b) =>
        match PercentBytes(t[3..], k - 1)
        case None => None
        case Some(rest) => Some([b] + rest)
  }

  /** The number of octets a UTF-8 sequence with this lead octet has; 0 when it cannot lead one. */
  function LeadLength(b: Byte): (n: nat)
    ensures n <= 4
  {
    if b < 0x80 then 1
    else if 0xC0 <= b < 0xE0 then 2
    else if 0xE0 <= b < 0xF0 then 3
    else if 0xF0 <= b < 0xF8 then 4
    else 0
  }

  predicate Continuation(b: Byte) {
    0x80 <= b < 0xC0
  }

  /** The code point of a well-formed UTF-8 sequence of one to four octets, else none. */
  function Utf8Decode(bs: seq<Byte>): (r: Option<char>)
    requires 1 <= |bs| <= 4
  {
    if |bs| == 1 then
      if bs[0] < 0x80 then Some(bs[0] as char) else None
    else if exists i :: 1 <= i < |bs| && !Continuation(bs[i]) then None
    else if |bs| == 2 then
      var n := (bs[0] as int - 0xC0) * 64 + (bs[1] as int - 0x80);
      if 0xC0 <= bs[0] < 0xE0 && 0x80 <= n then Some(n as char) else None
    else if |bs| == 3 then
      var n := (bs[0] as int - 0xE0) * 4096 + (bs[1] as int - 0x80) * 64 + (bs[2] as int - 0x80);
      if 0xE0 <= bs[0] < 0xF0 && 0x800 <= n && IsScalar(n) then Some(n as char) else None
    else
      var n := (bs[0] as int - 0xF0) * 0x4_0000 + (bs[1] as int - 0x80) * 4096 + (bs[2] as int - 0x80) * 64 + (bs[3] as int - 0x80);
      if 0xF0 <= bs[0] < 0xF8 && 0x1_0000 <= n < 0x11_0000 then Some(n as char) else None
  }

  /**
   * `decodeURIComponent(t)`; `None` stands for the URIError it throws on a
   * malformed escape or an ill-formed UTF-8 sequence.
   */
  function DecodeURIComponent(t: string): (r: Option<string>)
    decreases |t|
  {
    if t == [] then Some([])
    else if t[0] != '%' then
      match DecodeURIComponent(t[1..])
      case None => None
      case Some(rest) => Some([t[0]] + rest)
    else
      match PercentByte(t)
      case None => None
      case Some(lead) =>
        var k := LeadLength(lead);
        if k == 0 then None
        else match PercentBytes(t, k)
          case None => None
          case Some(bs) =>
            match Utf8Decode(bs)
            case None => None
            case Some(c) =>
              match DecodeURIComponent(t[3 * k..])
              case None => None
              case Some(rest) => Some([c] + rest)
  }

  // ---------------------------------------------------------------------
  // Round trip

  lemma HexRoundTrip(d: int)
    requires 0 <= d < 16
    ensures HexValue(HexDigit(d)) == Some(d)
  {
  }

  lemma PercentRoundTrip(b: Byte, rest: string)
    ensures PercentByte(Percent(b) + rest) == Some(b)
  {
    HexRoundTrip(b / 16);
    HexRoundTrip(b % 16);
  }

  lemma {:induction false} PercentAllRoundTrip(bs: seq<Byte>, rest: string)
    ensures PercentBytes(PercentAll(bs) + rest, |bs|) == Some(bs)
  {
    if bs != [] {
      var t := PercentAll(bs) + rest;
      PercentRoundTrip(bs[0], PercentAll(bs[1..]) + rest);
      assert t == Percent(bs[0]) + (PercentAll(bs[1..]) + rest);
      assert t[3..] == PercentAll(bs[1..]) + rest;
      PercentAllRoundTrip(bs[1..], rest);
      assert [bs[0]] + bs[1..] == bs;
    }
  }

  lemma DivMod64(n: int)
    requires 0 <= n
    ensures n == n / 64 * 64 + n % 64 && 0 <= n % 64 < 64
    ensures n / 64 == n / 4096 * 64 + n / 64 % 64
    ensures n / 4096 == n / 0x4_0000 * 64 + n / 4096 % 64
  {
  }

  /** The octets of a code point have the shape a UTF-8 decoder expects, and decode back to it. */
  lemma Utf8RoundTrip(c: char)
    ensures LeadLength(Utf8(c)[0]) == |Utf8(c)|
    ensures Utf8Decode(Utf8(c)) == Some(c)
  {
    var n := c as int;
    var bs := Utf8(c);
    DivMod64(n);
    if n < 0x80 {
    } else if n < 0x800 {
      assert bs == [0xC0 + n / 64, 0x80 + n % 64];
      assert Continuation(bs[1]);
      assert (bs[0] as int - 0xC0) * 64 + (bs[1] as int - 0x80) == n;
    } else if n < 0x1_0000 {
      assert bs == [0xE0 + n / 4096, 0x80 + n / 64 % 64, 0x80 + n % 64];
      assert Continuation(bs[1]) && Continuation(bs[2]);
      assert (bs[0] as int - 0xE0) * 4096 + (bs[1] as int - 0x80) * 64 + (bs[2] as int - 0x80) == n;
    } else {
      assert bs == [0xF0 + n / 0x4_0000, 0x80 + n / 4096 % 64, 0x80 + n / 64 % 64, 0x80 + n % 64];
      assert Continuation(bs[1]) && Continuation(bs[2]) && Continuation(bs[3]);
      assert (bs[0] as int - 0xF0) * 0x4_0000 + (bs[1] as int - 0x80) * 4096 + (bs[2] as int - 0x80) * 64 + (bs[3] as int - 0x80) == n;
    }
  }

  lemma DecodeAfterEncodeChar(c: char, rest: string)
    ensures DecodeURIComponent(EncodeChar(c) + rest) ==
      match DecodeURIComponent(rest)
      case None => None
      case Some(r) => Some([c] + r)
  {
    var t := EncodeChar(c) + rest;
    if Unreserved(c) {
      assert t[0] == c && t[1..] == rest;
    } else {
      var bs := Utf8(c);
      PercentAllRoundTrip(bs, rest);
      PercentAllRoundTrip(bs[..1], PercentAll(bs[1..]) + rest);
      assert PercentAll(bs) == Percent(bs[0]) + PercentAll(bs[1..]);
      PercentRoundTrip(bs[0], PercentAll(bs[1..]) + rest);
      Utf8RoundTrip(c);
      assert t[3 * |bs|..] == rest;
    }
  }

  /** Decoding undoes encoding: `decodeURIComponent(encodeURIComponent(s)) === s`. */
  lemma {:induction false} DecodeEncode(s: string)
    ensures DecodeURIComponent(EncodeURIComponent(s)) == Some(s)
  {
    if s != [] {
      DecodeAfterEncodeChar(s[0], EncodeURIComponent(s[1..]));
      DecodeEncode(s[1..]);
      assert [s[0]] + s[1..] == s;
    }
  }

  /** A string of unreserved characters is its own encoding. */
  lemma {:induction false} EncodeUnreserved(s: string)
    requires forall i :: 0 <= i < |s| ==> Unreserved(s[i])
    ensures EncodeURIComponent(s) == s
  {
    if s != [] {
      EncodeUnreserved(s[1..]);
      assert [s[0]] + s[1..] == s;
    }
  }
}
