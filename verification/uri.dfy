/** ECMAScript's `encodeURIComponent` (the global function of ECMA-262,
    "encodeURIComponent (uriComponent)"), over Unicode scalar values: every
    character outside the unreserved set becomes the `%XX` escapes of its
    UTF-8 bytes, with upper-case hexadecimal digits. */
module UriEncoding {

  /** Characters `encodeURIComponent` copies unchanged: ASCII letters and
      digits and `- _ . ! ~ * ' ( )`. */
  predicate IsUnreserved(c: char) {
    || ('A' <= c <= 'Z') || ('a' <= c <= 'z') || ('0' <= c <= '9')
    || c == '-' || c == '_' || c == '.' || c == '!' || c == '~'
    || c == '*' || c == '\'' || c == '(' || c == ')'
  }

  /** Characters that can appear in an encoded component. */
  predicate IsUriSafe(c: char) {
    IsUnreserved(c) || c == '%'
  }

  predicate IsByte(b: int) {
    0 <= b < 256
  }

  /** The UTF-8 encoding of one scalar value. */
  function Utf8(c: char): (bytes: seq<int>)
    ensures 1 <= |bytes| <= 4
    ensures forall i :: 0 <= i < |bytes| ==> IsByte(bytes[i])
    ensures |bytes| == 1 <==> c as int < 0x80
  {
    var n := c as int;
    if n < 0x80 then [n]
    else if n < 0x800 then [0xC0 + n / 0x40, 0x80 + n % 0x40]
    else if n < 0x1_0000 then [0xE0 + n / 0x1000, 0x80 + (n / 0x40) % 0x40, 0x80 + n % 0x40]
    else [0xF0 + n / 0x4_0000, 0x80 + (n / 0x1000) % 0x40, 0x80 + (n / 0x40) % 0x40, 0x80 + n % 0x40]
  }

  /** The scalar value a well-formed UTF-8 sequence of one to four bytes denotes. */
  function Utf8Value(bytes: seq<int>): int
    requires 1 <= |bytes| <= 4
  {
    if |bytes| == 1 then bytes[0]
    else if |bytes| == 2 then (bytes[0] - 0xC0) * 0x40 + (bytes[1] - 0x80)
    else if |bytes| == 3 then (bytes[0] - 0xE0) * 0x1000 + (bytes[1] - 0x80) * 0x40 + (bytes[2] - 0x80)
    else (bytes[0] - 0xF0) * 0x4_0000 + (bytes[1] - 0x80) * 0x1000 + (bytes[2] - 0x80) * 0x40 + (bytes[3] - 0x80)
  }

  /** UTF-8 encoding loses nothing: the bytes denote the character again, the
      lead byte announces the length, every other byte is a continuation byte,
      and no shorter form would do (no overlong encoding). */
  lemma Utf8RoundTrip(c: char)
    ensures Utf8Value(Utf8(c)) == c as int
    ensures var b := Utf8(c);
      && (|b| == 1 ==> b[0] < 0x80)
      && (|b| == 2 ==> 0xC0 <= b[0] < 0xE0)
      && (|b| == 3 ==> 0xE0 <= b[0] < 0xF0)
      && (|b| == 4 ==> 0xF0 <= b[0] < 0xF8)
      && (forall i :: 1 <= i < |b| ==> 0x80 <= b[i] < 0xC0)
    ensures var b := Utf8(c);
      && (|b| == 2 ==> 0x80 <= c as int)
      && (|b| == 3 ==> 0x800 <= c as int)
      && (|b| == 4 ==> 0x1_0000 <= c as int)
  {
    var n := c as int;
    assert n <= 0x10_FFFF;
    var b := Utf8(c);
    if n < 0x80 {
    } else if n < 0x800 {
      assert n == (n / 0x40) * 0x40 + n % 0x40;
      assert n / 0x40 < 0x20;
    } else if n < 0x1_0000 {
      var m := n / 0x40;
      assert n == m * 0x40 + n % 0x40;
      assert m == (m / 0x40) * 0x40 + m % 0x40;
      assert m / 0x40 == n / 0x1000 < 0x10;
      assert b[1] == 0x80 + m % 0x40;
    } else {
      var m := n / 0x40;
      var h := m / 0x40;
      assert n == m * 0x40 + n % 0x40;
      assert m == h * 0x40 + m % 0x40;
      assert h == (h / 0x40) * 0x40 + h % 0x40;
      assert h == n / 0x1000 && h / 0x40 == n / 0x4_0000 < 0x8;
      assert b[1] == 0x80 + h % 0x40 && b[2] == 0x80 + m % 0x40;
    }
  }

  /** The upper-case hexadecimal digit for `d`. */
  function HexDigit(d: int): (c: char)
    requires 0 <= d < 16
    ensures IsUnreserved(c) && c != '%'
  {
    "0123456789ABCDEF"[d]
  }

  predicate IsHexDigit(c: char) {
    ('0' <= c <= '9') || ('A' <= c <= 'F') || ('a' <= c <= 'f')
  }

  /** The value of a hexadecimal digit of either case. */
  function HexValue(c: char): (v: int)
    requires IsHexDigit(c)
    ensures 0 <= v < 16
  {
    if '0' <= c <= '9' then c as int - '0' as int
    else if 'A' <= c <= 'F' then c as int - 'A' as int + 10
    else c as int - 'a' as int + 10
  }

  lemma HexDigitValue(d: int)
    requires 0 <= d < 16
    ensures IsHexDigit(HexDigit(d)) && HexValue(HexDigit(d)) == d
  {
  }

  /** `%XX` for one byte. */
  function PercentByte(b: int): (r: string)
    requires IsByte(b)
    ensures |r| == 3 && r[0] == '%'
  {
    ['%', HexDigit(b / 16), HexDigit(b % 16)]
  }

  /** The `%XX` escapes of a byte sequence, in order. */
  function PercentBytes(bytes: seq<int>): (r: string)
    requires forall i :: 0 <= i < |bytes| ==> IsByte(bytes[i])
    ensures |r| == 3 * |bytes|
    ensures forall i :: 0 <= i < |r| ==> IsUriSafe(r[i])
    decreases |bytes|
  {
    if |bytes| == 0 then "" else PercentByte(bytes[0]) + PercentBytes(bytes[1..])
  }

  /** One character of the input, encoded. */
  function EncodeChar(c: char): (r: string)
    ensures IsUnreserved(c) ==> r == [c]
    ensures !IsUnreserved(c) ==> 3 <= |r| <= 12 && r[0] == '%'
    ensures forall i :: 0 <= i < |r| ==> IsUriSafe(r[i])
  {
    if IsUnreserved(c) then [c] else PercentBytes(Utf8(c))
  }

  /** `encodeURIComponent(s)`. The result consists only of unreserved
      characters and `%`, so it contains no space, `&`, `#` or `=` and cannot
      end the query parameter it is placed in. */
  function EncodeURIComponent(s: string): (r: string)
    ensures |r| >= |s|
    ensures forall i :: 0 <= i < |r| ==> IsUriSafe(r[i])
    decreases |s|
  {
    if |s| == 0 then "" else EncodeChar(s[0]) + EncodeURIComponent(s[1..])
  }

  /** A string is its own encoding exactly when every character is unreserved. */
  lemma {:induction false} EncodeIdentityIff(s: string)
    ensures EncodeURIComponent(s) == s <==> forall i :: 0 <= i < |s| ==> IsUnreserved(s[i])
    decreases |s|
  {
    if |s| > 0 {
      EncodeIdentityIff(s[1..]);
      var rest := EncodeURIComponent(s[1..]);
      if IsUnreserved(s[0]) {
        assert EncodeURIComponent(s) == [s[0]] + rest;
        if rest == s[1..] {
          assert [s[0]] + s[1..] == s;
        } else {
          assert EncodeURIComponent(s)[1..] == rest;
        }
        assert (forall i :: 0 <= i < |s| ==> IsUnreserved(s[i]))
          <==> (forall i :: 0 <= i < |s[1..]| ==> IsUnreserved(s[1..][i])) by {
          forall i | 0 <= i < |s[1..]| ensures s[1..][i] == s[i + 1] { }
        }
      } else {
        assert |EncodeURIComponent(s)| >= 3 + |s[1..]| > |s|;
      }
    }
  }

  /** Percent-decoding of a string whose escapes denote ASCII characters
      (`decodeURIComponent` on such input): `%XX` becomes the character with
      code `XX`, every other character is kept. */
  function PercentDecode(t: string): (r: string)
    ensures |r| <= |t|
    decreases |t|
  {
    if |t| == 0 then ""
    else if |t| >= 3 && t[0] == '%' && IsHexDigit(t[1]) && IsHexDigit(t[2]) then
      [(HexValue(t[1]) * 16 + HexValue(t[2])) as char] + PercentDecode(t[3..])
    else [t[0]] + PercentDecode(t[1..])
  }

  predicate IsAscii(s: string) {
    forall i :: 0 <= i < |s| ==> s[i] as int < 0x80
  }

  /** Decoding consumes exactly the encoding of one ASCII character. */
  lemma DecodeEncodedChar(c: char, rest: string)
    requires c as int < 0x80
    ensures PercentDecode(EncodeChar(c) + rest) == [c] + PercentDecode(rest)
  {
    var t := EncodeChar(c) + rest;
    if IsUnreserved(c) {
      assert t[0] == c && c != '%';
      assert t[1..] == rest;
    } else {
      var n := c as int;
      assert Utf8(c) == [n];
      assert EncodeChar(c) == PercentByte(n);
      HexDigitValue(n / 16);
      HexDigitValue(n % 16);
      assert t[0] == '%' && t[1] == HexDigit(n / 16) && t[2] == HexDigit(n % 16);
      assert t[3..] == rest;
    }
  }

  /** Decoding undoes encoding on ASCII text, so the query typed by the user
      can be read back from the search URL. */
  lemma {:induction false} DecodeEncodeAscii(s: string)
    requires IsAscii(s)
    ensures PercentDecode(EncodeURIComponent(s)) == s
    decreases |s|
  {
    if |s| > 0 {
      assert IsAscii(s[1..]) by {
        forall i | 0 <= i < |s[1..]| ensures s[1..][i] as int < 0x80 {
          assert s[1..][i] == s[i + 1];
        }
      }
      DecodeEncodeAscii(s[1..]);
      DecodeEncodedChar(s[0], EncodeURIComponent(s[1..]));
      assert [s[0]] + s[1..] == s;
    }
  }
}
