/**
 * UTF-8, as `str.encode("UTF8")` produces it and as percent-decoding reads it
 * back: a Unicode scalar value becomes one to four bytes.
 */
module Utf8 {
  import opened Wrappers

  type byte = b: int | 0 <= b < 256

  /** The UTF-8 bytes of one scalar value. */
  function EncodeChar(c: char): (r: seq<byte>)
    ensures 1 <= |r| <= 4
    ensures |r| == 1 <==> c as int < 0x80
    ensures |r| == 1 ==> r[0] == c as int
    ensures |r| > 1 ==> forall k :: 0 <= k < |r| ==> r[k] >= 0x80
  {
    var cp := c as int;
    if cp < 0x80 then [cp]
    else if cp < 0x800 then [0xC0 + cp / 64, 0x80 + cp % 64]
    else if cp < 0x10000 then [0xE0 + cp / 4096, 0x80 + (cp / 64) % 64, 0x80 + cp % 64]
    else [0xF0 + cp / 262144, 0x80 + (cp / 4096) % 64, 0x80 + (cp / 64) % 64, 0x80 + cp % 64]
  }

  /** `s.encode("UTF8")`. */
  function Encode(s: string): seq<byte>
  {
    if s == [] then [] else EncodeChar(s[0]) + Encode(s[1..])
  }

  /** The length of the sequence a lead byte announces; 0 for a byte that cannot lead. */
  function SequenceLength(b: byte): nat
  {
    if b < 0x80 then 1
    else if 0xC2 <= b < 0xE0 then 2
    else if 0xE0 <= b < 0xF0 then 3
    else if 0xF0 <= b < 0xF5 then 4
    else 0
  }

  predicate IsContinuation(b: byte) {
    0x80 <= b < 0xC0
  }

  /** The scalar value a complete, well-formed sequence stands for; None for an
      overlong form, a surrogate or a value above U+10FFFF. */
  function DecodeScalar(bs: seq<byte>): Option<char>
    requires 1 <= |bs| <= 4 && SequenceLength(bs[0]) == |bs|
  {
    if |bs| == 1 then Some(bs[0] as char)
    else if exists k :: 1 <= k < |bs| && !IsContinuation(bs[k]) then None
    else if |bs| == 2 then
      Some(((bs[0] as int - 0xC0) * 64 + (bs[1] as int - 0x80)) as char)
    else if |bs| == 3 then
      var cp := (bs[0] as int - 0xE0) * 4096 + (bs[1] as int - 0x80) * 64 + (bs[2] as int - 0x80);
      if cp < 0x800 || 0xD800 <= cp < 0xE000 then None else Some(cp as char)
    else
      var cp := (bs[0] as int - 0xF0) * 262144 + (bs[1] as int - 0x80) * 4096 + (bs[2] as int - 0x80) * 64 + (bs[3] as int - 0x80);
      if cp < 0x10000 || cp >= 0x110000 then None else Some(cp as char)
  }

  /** `bs.decode("UTF8")` (strict): None where the bytes are not UTF-8. */
  function Decode(bs: seq<byte>): Option<string>
    decreases |bs|
  {
    if bs == [] then Some([])
    else
      var n := SequenceLength(bs[0]);
      if n == 0 || |bs| < n then None
      else match DecodeScalar(bs[..n])
        case None => None
        case Some(c) =>
          match Decode(bs[n..])
          case None => None
          case Some(rest) => Some([c] + rest)
  }

  /** The bytes of one scalar value are one well-formed sequence that stands for it. */
  lemma DecodeEncodeChar(c: char)
    ensures SequenceLength(EncodeChar(c)[0]) == |EncodeChar(c)|
    ensures DecodeScalar(EncodeChar(c)) == Some(c)
  {
    var cp := c as int;
    var r := EncodeChar(c);
    if cp < 0x80 {
    } else if cp < 0x800 {
      assert (cp / 64) * 64 + cp % 64 == cp;
    } else if cp < 0x10000 {
      assert cp / 4096 * 4096 + ((cp / 64) % 64) * 64 + cp % 64 == cp by {
        assert cp / 64 == (cp / 4096) * 64 + (cp / 64) % 64;
      }
    } else {
      assert cp / 262144 * 262144 + ((cp / 4096) % 64) * 4096 + ((cp / 64) % 64) * 64 + cp % 64 == cp by {
        assert cp / 64 == (cp / 4096) * 64 + (cp / 64) % 64;
        assert cp / 4096 == (cp / 262144) * 64 + (cp / 4096) % 64;
      }
    }
  }

  /** Decoding what `Encode` produced gives back the string. */
  lemma {:induction false} DecodeEncode(s: string)
    ensures Decode(Encode(s)) == Some(s)
  {
    if s != [] {
      var head := EncodeChar(s[0]);
      var bs := head + Encode(s[1..]);
      DecodeEncodeChar(s[0]);
      assert bs[..|head|] == head;
      assert bs[|head|..] == Encode(s[1..]);
      DecodeEncode(s[1..]);
      assert s == [s[0]] + s[1..];
    }
  }
}
