/**
  * urllib.parse.quote(path, safe='/') as the generator applies it to a relative ROM path: the
  * text is encoded as UTF-8 and every byte outside the unreserved set of section 2.3 of
  * RFC 3986, other than '/', becomes a percent-encoded triplet as in section 2.1 of RFC 3986.
  */
module Quoting {
  import opened Results

  type Byte = x: int | 0 <= x < 256

  /** The UTF-8 encoding of one scalar value (section 3.9 of the Unicode Standard, table 3-6). */
  function EncodeChar(c: char): (bs: seq<Byte>)
    ensures 1 <= |bs| <= 4
    ensures |bs| == 1 <==> c as int < 0x80
    ensures |bs| == 1 ==> bs[0] == c as int
    ensures forall k | 1 <= k < |bs| :: 0x80 <= bs[k] < 0xC0
  {
    var n := c as int;
    if n < 0x80 then [n]
    else if n < 0x800 then [0xC0 + n / 64, 0x80 + n % 64]
    else if n < 0x10000 then [0xE0 + n / 4096, 0x80 + (n / 64) % 64, 0x80 + n % 64]
    else [0xF0 + n / 262144, 0x80 + (n / 4096) % 64, 0x80 + (n / 64) % 64, 0x80 + n % 64]
  }

  /** str.encode('utf-8'). */
  function Utf8(s: string): (bs: seq<Byte>)
    ensures |bs| >= |s|
  {
    if s == [] then [] else EncodeChar(s[0]) + Utf8(s[1..])
  }

  predicate IsContinuation(b: Byte) {
    0x80 <= b < 0xC0
  }

  /** A code point Dafny's char can hold: not a surrogate and below 0x110000. */
  predicate IsScalar(n: int) {
    (0 <= n < 0xD800) || (0xE000 <= n < 0x110000)
  }

  /** Decodes the first character of a UTF-8 byte sequence, with the number of bytes it takes. */
  function DecodeChar(bs: seq<Byte>): (r: Option<(char, nat)>)
    ensures r.Some? ==> 1 <= r.value.1 <= |bs|
  {
    if bs == [] then None
    else if bs[0] < 0x80 then Some((bs[0] as char, 1))
    else if 0xC0 <= bs[0] < 0xE0 && |bs| >= 2 && IsContinuation(bs[1]) then
      var n := (bs[0] as int - 0xC0) * 64 + (bs[1] as int - 0x80);
      if 0x80 <= n then Some((n as char, 2)) else None
    else if 0xE0 <= bs[0] < 0xF0 && |bs| >= 3 && IsContinuation(bs[1]) && IsContinuation(bs[2]) then
      var n := (bs[0] as int - 0xE0) * 4096 + (bs[1] as int - 0x80) * 64 + (bs[2] as int - 0x80);
      if 0x800 <= n && IsScalar(n) then Some((n as char, 3)) else None
    else if 0xF0 <= bs[0] < 0xF8 && |bs| >= 4 && IsContinuation(bs[1]) && IsContinuation(bs[2])
      && IsContinuation(bs[3]) then
      var n := (bs[0] as int - 0xF0) * 262144 + (bs[1] as int - 0x80) * 4096
        + (bs[2] as int - 0x80) * 64 + (bs[3] as int - 0x80);
      if 0x10000 <= n && IsScalar(n) then Some((n as char, 4)) else None
    else None
  }

  /** bytes.decode('utf-8') in strict mode: None for a malformed sequence. */
  function Utf8Decode(bs: seq<Byte>): Option<string>
    decreases |bs|
  {
    if bs == [] then Some([])
    else
      var (c, len) :- DecodeChar(bs);
      var rest :- Utf8Decode(bs[len..]);
      Some([c] + rest)
  }

  /** The encoding of a character decodes back to it, whatever follows. */
  lemma DecodeEncodedChar(c: char, rest: seq<Byte>)
    ensures DecodeChar(EncodeChar(c) + rest) == Some((c, |EncodeChar(c)|))
  {
    var n := c as int;
    if n < 0x80 {
      assert (EncodeChar(c) + rest)[0] == n;
    } else if n < 0x800 {
      DecodeTwoBytes(c, rest);
    } else if n < 0x10000 {
      DecodeThreeBytes(c, rest);
    } else {
      DecodeFourBytes(c, rest);
    }
  }

  /** The six-bit groups of n, from the lowest: n == ((g3 * 64 + g2) * 64 + g1) * 64 + g0. */
  lemma SixBitGroups(n: nat)
    ensures n == (n / 64) * 64 + n % 64
    ensures n / 64 == (n / 4096) * 64 + (n / 64) % 64
    ensures n / 4096 == (n / 262144) * 64 + (n / 4096) % 64
  {
    assert n / 4096 == (n / 64) / 64;
    assert n / 262144 == (n / 4096) / 64;
  }

  lemma DecodeTwoBytes(c: char, rest: seq<Byte>)
    requires 0x80 <= c as int < 0x800
    ensures DecodeChar(EncodeChar(c) + rest) == Some((c, 2))
  {
    var n := c as int;
    SixBitGroups(n);
    var b0, b1 := 0xC0 + n / 64, 0x80 + n % 64;
    assert EncodeChar(c) == [b0, b1];
    var bs := [b0, b1] + rest;
    assert bs[0] == b0 && bs[1] == b1;
    assert (b0 - 0xC0) * 64 + (b1 - 0x80) == n;
  }

  lemma DecodeThreeBytes(c: char, rest: seq<Byte>)
    requires 0x800 <= c as int < 0x10000
    ensures DecodeChar(EncodeChar(c) + rest) == Some((c, 3))
  {
    var n := c as int;
    SixBitGroups(n);
    var b0, b1, b2 := 0xE0 + n / 4096, 0x80 + (n / 64) % 64, 0x80 + n % 64;
    assert EncodeChar(c) == [b0, b1, b2];
    var bs := [b0, b1, b2] + rest;
    assert bs[0] == b0 && bs[1] == b1 && bs[2] == b2;
    assert (b0 - 0xE0) * 4096 + (b1 - 0x80) * 64 + (b2 - 0x80) == n;
    assert IsScalar(n);
  }

  lemma DecodeFourBytes(c: char, rest: seq<Byte>)
    requires 0x10000 <= c as int
    ensures DecodeChar(EncodeChar(c) + rest) == Some((c, 4))
  {
    var n := c as int;
    SixBitGroups(n);
    var b0, b1, b2, b3 := 0xF0 + n / 262144, 0x80 + (n / 4096) % 64, 0x80 + (n / 64) % 64, 0x80 + n % 64;
    assert EncodeChar(c) == [b0, b1, b2, b3];
    var bs := [b0, b1, b2, b3] + rest;
    assert bs[0] == b0 && bs[1] == b1 && bs[2] == b2 && bs[3] == b3;
    assert (b0 - 0xF0) * 262144 + (b1 - 0x80) * 4096 + (b2 - 0x80) * 64 + (b3 - 0x80) == n;
    assert IsScalar(n);
  }

  /** Decoding the UTF-8 encoding of a string gives the string back. */
  lemma {:induction false} Utf8RoundTrip(s: string)
    ensures Utf8Decode(Utf8(s)) == Some(s)
  {
    if s != [] {
      var head := EncodeChar(s[0]);
      var rest := Utf8(s[1..]);
      DecodeEncodedChar(s[0], rest);
      assert (head + rest)[|head|..] == rest;
      Utf8RoundTrip(s[1..]);
      assert [s[0]] + s[1..] == s;
    }
  }

  /** The unreserved characters of section 2.3 of RFC 3986: letters, digits, '-', '.', '_' and '~'. */
  predicate IsUnreserved(b: Byte) {
    || 'A' as int <= b <= 'Z' as int
    || 'a' as int <= b <= 'z' as int
    || '0' as int <= b <= '9' as int
    || b == '-' as int || b == '.' as int || b == '_' as int || b == '~' as int
  }

  /** The bytes quote(..., safe='/') copies unchanged. */
  predicate IsSafe(b: Byte) {
    IsUnreserved(b) || b == '/' as int
  }

  predicate IsSafeChar(c: char) {
    c as int < 0x80 && IsSafe(c as int)
  }

  /** An upper-case hexadecimal digit, as quote writes them. */
  predicate IsHexDigit(c: char) {
    ('0' <= c <= '9') || ('A' <= c <= 'F')
  }

  function HexDigit(v: nat): (c: char)
    requires v < 16
    ensures IsHexDigit(c)
    ensures HexValue(c) == v
  {
    if v < 10 then ('0' as int + v) as char else ('A' as int + v - 10) as char
  }

  function HexValue(c: char): (v: nat)
    requires IsHexDigit(c)
    ensures v < 16
  {
    if c <= '9' then c as int - '0' as int else c as int - 'A' as int + 10
  }

  /** One byte as quote writes it: itself when safe, otherwise '%' and two hexadecimal digits. */
  function QuoteByte(b: Byte): string
  {
    if IsSafe(b) then [b as char] else ['%', HexDigit(b / 16), HexDigit(b % 16)]
  }

  /**
    * Text made only of safe characters and percent-encoded triplets: what section 2.1 of
    * RFC 3986 allows in a path, restricted to the unreserved set and '/'.
    */
  predicate IsPercentEncoded(s: string)
    decreases |s|
  {
    if s == [] then true
    else if s[0] == '%' then |s| >= 3 && IsHexDigit(s[1]) && IsHexDigit(s[2]) && IsPercentEncoded(s[3..])
    else IsSafeChar(s[0]) && IsPercentEncoded(s[1..])
  }

  /** urllib.parse.quote_from_bytes(bs, safe='/'). */
  function Quote(bs: seq<Byte>): (s: string)
    ensures IsPercentEncoded(s)
    ensures |bs| <= |s| <= 3 * |bs|
  {
    if bs == [] then ""
    else
      var head := QuoteByte(bs[0]);
      var rest := Quote(bs[1..]);
      var s := head + rest;
      assert s[|head|..] == rest;
      s
  }

  /**
    * Percent-decoding, as urllib.parse.unquote_to_bytes does on text that quote produces
    * (upper-case hexadecimal digits, ASCII only); None on anything else.
    */
  function PercentDecode(s: string): Option<seq<Byte>>
    decreases |s|
  {
    if s == [] then Some([])
    else if s[0] == '%' then
      if |s| >= 3 && IsHexDigit(s[1]) && IsHexDigit(s[2]) then
        var rest :- PercentDecode(s[3..]);
        Some([HexValue(s[1]) * 16 + HexValue(s[2])] + rest)
      else None
    else if s[0] as int < 0x80 then
      var rest :- PercentDecode(s[1..]);
      Some([s[0] as int] + rest)
    else None
  }

  /** A single byte quotes to its own escape, or to itself when it is safe. */
  lemma QuoteSingle(b: Byte)
    ensures Quote([b]) == QuoteByte(b)
  {
    assert [b][1..] == [];
  }

  /** Quoting works byte by byte: the quote of two byte strings one after the other is the two quotes. */
  lemma {:induction false} QuoteAppend(a: seq<Byte>, b: seq<Byte>)
    ensures Quote(a + b) == Quote(a) + Quote(b)
  {
    if a != [] {
      assert (a + b)[0] == a[0];
      assert (a + b)[1..] == a[1..] + b;
      QuoteAppend(a[1..], b);
      calc {
        Quote(a + b);
        QuoteByte(a[0]) + Quote(a[1..] + b);
        QuoteByte(a[0]) + (Quote(a[1..]) + Quote(b));
        (QuoteByte(a[0]) + Quote(a[1..])) + Quote(b);
        Quote(a) + Quote(b);
      }
    } else {
      assert a + b == b;
    }
  }

  /** Encoding works character by character: the encoding of two texts is the two encodings. */
  lemma {:induction false} Utf8Append(s: string, t: string)
    ensures Utf8(s + t) == Utf8(s) + Utf8(t)
  {
    if s != [] {
      assert (s + t)[0] == s[0];
      assert (s + t)[1..] == s[1..] + t;
      Utf8Append(s[1..], t);
      calc {
        Utf8(s + t);
        EncodeChar(s[0]) + Utf8(s[1..] + t);
        EncodeChar(s[0]) + (Utf8(s[1..]) + Utf8(t));
        (EncodeChar(s[0]) + Utf8(s[1..])) + Utf8(t);
        Utf8(s) + Utf8(t);
      }
    } else {
      assert s + t == t;
    }
  }

  /** The separator of a path is kept: each side is quoted on its own and '/' stays between them. */
  lemma QuoteKeepsSeparator(a: string, b: string)
    ensures Quote(Utf8(a + "/" + b)) == Quote(Utf8(a)) + "/" + Quote(Utf8(b))
  {
    Utf8Append(a + "/", b);
    Utf8Append(a, "/");
    assert Utf8("/") == ['/' as int];
    QuoteAppend(Utf8(a) + ['/' as int], Utf8(b));
    QuoteAppend(Utf8(a), ['/' as int]);
    QuoteSingle('/' as int);
  }

  /** A path of three components is quoted component by component, its two separators kept. */
  lemma QuoteThreeComponents(a: string, b: string, c: string)
    ensures Quote(Utf8(a + "/" + b + "/" + c)) == Quote(Utf8(a)) + "/" + Quote(Utf8(b)) + "/" + Quote(Utf8(c))
  {
    assert a + "/" + b + "/" + c == (a + "/" + b) + "/" + c;
    QuoteKeepsSeparator(a + "/" + b, c);
    QuoteKeepsSeparator(a, b);
  }

  /** Percent-decoding the quoted bytes gives the bytes back. */
  lemma {:induction false} QuoteRoundTrip(bs: seq<Byte>)
    ensures PercentDecode(Quote(bs)) == Some(bs)
  {
    if bs != [] {
      var head := QuoteByte(bs[0]);
      var rest := Quote(bs[1..]);
      var s := head + rest;
      assert s[|head|..] == rest;
      QuoteRoundTrip(bs[1..]);
      if !IsSafe(bs[0]) {
        assert HexValue(s[1]) * 16 + HexValue(s[2]) == bs[0];
      }
      assert [bs[0]] + bs[1..] == bs;
    }
  }

  /** Different byte strings never quote to the same text. */
  lemma QuoteInjective(a: seq<Byte>, b: seq<Byte>)
    requires Quote(a) == Quote(b)
    ensures a == b
  {
    QuoteRoundTrip(a);
    QuoteRoundTrip(b);
  }

  /** Text made only of safe ASCII characters is left as it is. */
  lemma {:induction false} QuoteSafeText(s: string)
    requires forall k | 0 <= k < |s| :: IsSafeChar(s[k])
    ensures Quote(Utf8(s)) == s
  {
    if s != [] {
      QuoteSafeText(s[1..]);
      assert Utf8(s) == [s[0] as int] + Utf8(s[1..]);
      assert Utf8(s)[1..] == Utf8(s[1..]);
      assert [s[0]] + s[1..] == s;
    }
  }

  /** A space and the parentheses of a ROM name are escaped: " (" quotes to "%20%28". */
  lemma QuoteExample()
    ensures Quote(Utf8(" (")) == "%20%28"
  {
    assert Utf8(" (") == [32, 40];
    assert QuoteByte(32) == "%20";
    assert QuoteByte(40) == "%28";
    assert Quote([40]) == "%28";
  }
}
