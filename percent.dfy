/**
 * `encode(s)` of the signer, which is `urllib.parse.quote(s, safe="")`:
 * percent-encoding (section 2.1 of RFC 3986) of the UTF-8 bytes of `s`,
 * keeping only the unreserved characters of section 2.3, as section 3.6 of
 * RFC 5849 asks; and its inverse, percent-decoding.
 */
module Percent {
  import opened Wrappers
  import Utf8

  type byte = Utf8.byte

  /** The unreserved set of RFC 3986: `A-Z a-z 0-9 - . _ ~`. */
  predicate Unreserved(c: char) {
    || 'A' <= c <= 'Z' || 'a' <= c <= 'z' || '0' <= c <= '9'
    || c == '-' || c == '.' || c == '_' || c == '~'
  }

  predicate IsHexDigit(c: char) {
    '0' <= c <= '9' || 'A' <= c <= 'F' || 'a' <= c <= 'f'
  }

  /** The upper-case hexadecimal digit `quote` writes for `n`. */
  function HexDigit(n: nat): (c: char)
    requires n < 16
    ensures IsHexDigit(c) && Unreserved(c) && HexValue(c) == n
    ensures !('a' <= c <= 'f')
  {
    if n < 10 then ('0' as int + n) as char else ('A' as int + n - 10) as char
  }

  /** The value of a hexadecimal digit of either case. */
  function HexValue(c: char): nat
    requires IsHexDigit(c)
  {
    if '0' <= c <= '9' then c as int - '0' as int
    else if 'A' <= c <= 'F' then c as int - 'A' as int + 10
    else c as int - 'a' as int + 10
  }

  /** One byte as `quote` writes it: itself when it is an unreserved ASCII
      character, `%` and two upper-case hex digits otherwise. */
  function QuoteByte(b: byte): (r: string)
    ensures b < 0x80 && Unreserved(b as char) ==> r == [b as char]
    ensures !(b < 0x80 && Unreserved(b as char)) ==>
      |r| == 3 && r[0] == '%' && IsHexDigit(r[1]) && IsHexDigit(r[2])
      && !('a' <= r[1] <= 'f') && !('a' <= r[2] <= 'f')
      && HexValue(r[1]) * 16 + HexValue(r[2]) == b
  {
    if b < 0x80 && Unreserved(b as char) then [b as char]
    else ['%', HexDigit(b / 16), HexDigit(b % 16)]
  }

  /** `quote_from_bytes(bs, safe="")`. */
  function QuoteBytes(bs: seq<byte>): string
  {
    if bs == [] then [] else QuoteByte(bs[0]) + QuoteBytes(bs[1..])
  }

  /** `encode(s)`, that is `quote(s, safe="")`. */
  function Encode(s: string): string
  {
    QuoteBytes(Utf8.Encode(s))
  }

  /** `quote_from_bytes` writes only unreserved characters and `%`. */
  lemma {:induction false} QuoteBytesAlphabet(bs: seq<byte>)
    ensures forall k :: 0 <= k < |QuoteBytes(bs)| ==> Unreserved(QuoteBytes(bs)[k]) || QuoteBytes(bs)[k] == '%'
  {
    if bs != [] {
      QuoteBytesAlphabet(bs[1..]);
      var head := QuoteByte(bs[0]);
      var r := QuoteBytes(bs);
      assert r == head + QuoteBytes(bs[1..]);
      forall k | |head| <= k < |r| ensures r[k] == QuoteBytes(bs[1..])[k - |head|] {}
    }
  }

  /** The output of `encode` holds only unreserved characters and `%`: none
      of the delimiters OAuth puts around it (`&`, `=`, `,`, `"`, space). */
  lemma EncodeAlphabet(s: string)
    ensures forall k :: 0 <= k < |Encode(s)| ==> Unreserved(Encode(s)[k]) || Encode(s)[k] == '%'
    ensures var r := Encode(s); '&' !in r && '=' !in r && ',' !in r && '"' !in r && ' ' !in r
  {
    QuoteBytesAlphabet(Utf8.Encode(s));
  }

  /** `unquote_to_bytes(t)`: `%XY` with two hex digits is the byte `0xXY`;
      every other character, a lone `%` included, stands for its UTF-8 bytes. */
  function DecodeToBytes(t: string): seq<byte>
  {
    if t == [] then []
    else if |t| >= 3 && t[0] == '%' && IsHexDigit(t[1]) && IsHexDigit(t[2]) then
      [HexValue(t[1]) * 16 + HexValue(t[2])] + DecodeToBytes(t[3..])
    else Utf8.EncodeChar(t[0]) + DecodeToBytes(t[1..])
  }

  /** `unquote(t)` with strict UTF-8: None where the bytes are not UTF-8. */
  function Decode(t: string): Option<string>
  {
    Utf8.Decode(DecodeToBytes(t))
  }

  /** Percent-decoding undoes `quote_from_bytes` byte for byte. */
  lemma {:induction false} DecodeQuoteBytes(bs: seq<byte>)
    ensures DecodeToBytes(QuoteBytes(bs)) == bs
  {
    if bs != [] {
      var head := QuoteByte(bs[0]);
      var t := head + QuoteBytes(bs[1..]);
      if |head| == 1 {
        assert t[1..] == QuoteBytes(bs[1..]);
      } else {
        assert t[3..] == QuoteBytes(bs[1..]);
      }
      DecodeQuoteBytes(bs[1..]);
      assert bs == [bs[0]] + bs[1..];
    }
  }

  /** Percent-decoding the output of `encode` gives back its input. */
  lemma DecodeEncode(s: string)
    ensures Decode(Encode(s)) == Some(s)
  {
    DecodeQuoteBytes(Utf8.Encode(s));
    Utf8.DecodeEncode(s);
  }

  /** `encode` leaves a string of unreserved characters as it is. */
  lemma {:induction false} EncodeUnreserved(s: string)
    requires forall k :: 0 <= k < |s| ==> Unreserved(s[k])
    ensures Encode(s) == s
  {
    if s != [] {
      assert Utf8.Encode(s) == [s[0] as int] + Utf8.Encode(s[1..]);
      assert Utf8.Encode(s)[1..] == Utf8.Encode(s[1..]);
      EncodeUnreserved(s[1..]);
      assert s == [s[0]] + s[1..];
    }
  }

  /** `encode` of a concatenation is the concatenation of the encodings. */
  lemma {:induction false} EncodeAppend(a: string, b: string)
    ensures Encode(a + b) == Encode(a) + Encode(b)
  {
    Utf8EncodeAppend(a, b);
    QuoteBytesAppend(Utf8.Encode(a), Utf8.Encode(b));
  }

  lemma {:induction false} Utf8EncodeAppend(a: string, b: string)
    ensures Utf8.Encode(a + b) == Utf8.Encode(a) + Utf8.Encode(b)
  {
    if a != [] {
      assert (a + b)[1..] == a[1..] + b;
      Utf8EncodeAppend(a[1..], b);
    } else {
      assert a + b == b;
    }
  }

  lemma {:induction false} QuoteBytesAppend(a: seq<byte>, b: seq<byte>)
    ensures QuoteBytes(a + b) == QuoteBytes(a) + QuoteBytes(b)
  {
    if a != [] {
      assert (a + b)[1..] == a[1..] + b;
      QuoteBytesAppend(a[1..], b);
    } else {
      assert a + b == b;
    }
  }

  /** Each character outside the unreserved set becomes `%XY` per UTF-8 byte:
      a non-ASCII character becomes two to four escapes, never itself. */
  lemma EncodeCharEscapes(c: char)
    ensures Unreserved(c) ==> Encode([c]) == [c]
    ensures !Unreserved(c) ==>
      |Encode([c])| == 3 * |Utf8.EncodeChar(c)| && Encode([c])[0] == '%'
  {
    var bs := Utf8.EncodeChar(c);
    assert Utf8.Encode([c]) == bs + Utf8.Encode([]) == bs;
    if Unreserved(c) {
      EncodeUnreserved([c]);
    } else {
      forall k | 0 <= k < |bs| ensures !(bs[k] < 0x80 && Unreserved(bs[k] as char)) {}
      EscapedLength(bs);
    }
  }

  lemma {:induction false} EscapedLength(bs: seq<byte>)
    requires forall k :: 0 <= k < |bs| ==> !(bs[k] < 0x80 && Unreserved(bs[k] as char))
    ensures |QuoteBytes(bs)| == 3 * |bs|
    ensures bs != [] ==> QuoteBytes(bs)[0] == '%'
  {
    if bs != [] {
      EscapedLength(bs[1..]);
    }
  }
}
