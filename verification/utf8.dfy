/**
 UTF-8 as `encodeURIComponent` uses it (section 3 of RFC 3629): each Unicode
 scalar value becomes one to four octets. The decoder is the partner the
 round-trip property is stated against; it rejects overlong forms, surrogates
 and values above U+10FFFF.
 */
module Utf8 {
  import opened Options

  type byte = b: int | 0 <= b < 256

  /** A continuation octet 10xxxxxx. */
  predicate IsContinuation(b: byte) {
    0x80 <= b < 0xC0
  }

  /** The octets of one scalar value: ASCII stays one octet, everything else
      is a lead octet followed by continuation octets. */
  function EncodeChar(c: char): (r: seq<byte>)
    ensures 1 <= |r| <= 4
    ensures (c as int) < 0x80 <==> |r| == 1
    ensures |r| == 1 ==> r[0] == c as int
    ensures (c as int) >= 0x80 ==> forall i :: 0 <= i < |r| ==> r[i] >= 0x80
  {
    var cp := c as int;
    if cp < 0x80 then [cp]
    else if cp < 0x800 then [0xC0 + cp / 0x40, 0x80 + cp % 0x40]
    else if cp < 0x10000 then [0xE0 + cp / 0x1000, 0x80 + (cp / 0x40) % 0x40, 0x80 + cp % 0x40]
    else [0xF0 + cp / 0x40000, 0x80 + (cp / 0x1000) % 0x40, 0x80 + (cp / 0x40) % 0x40, 0x80 + cp % 0x40]
  }

  /** The octets of a whole string, character after character. */
  function Encode(s: string): (r: seq<byte>)
    ensures |s| <= |r| <= 4 * |s|
  {
    if s == [] then [] else EncodeChar(s[0]) + Encode(s[1..])
  }

  /** The scalar value with code point `cp`, when there is one. */
  function ToChar(cp: int): Option<char> {
    if 0 <= cp < 0xD800 || 0xE000 <= cp < 0x11_0000 then Some(cp as char) else None
  }

  /** Decodes the scalar value at the front of `bs` and says how many octets it took. */
  function DecodeChar(bs: seq<byte>): (r: Option<(char, nat)>)
    ensures r.Some? ==> 1 <= r.value.1 <= |bs| && r.value.1 <= 4
  {
    if |bs| == 0 then None
    else
      var b0: int := bs[0];
      if b0 < 0x80 then Some((b0 as char, 1))
      else if 0xC2 <= b0 < 0xE0 then
        if |bs| >= 2 && IsContinuation(bs[1]) then
          var cp := (b0 - 0xC0) * 0x40 + (bs[1] as int - 0x80);
          match ToChar(cp)
          case Some(c) => Some((c, 2))
          case None => None
        else None
      else if 0xE0 <= b0 < 0xF0 then
        if |bs| >= 3 && IsContinuation(bs[1]) && IsContinuation(bs[2]) then
          var cp := (b0 - 0xE0) * 0x1000 + (bs[1] as int - 0x80) * 0x40 + (bs[2] as int - 0x80);
          if cp < 0x800 then None
          else match ToChar(cp)
            case Some(c) => Some((c, 3))
            case None => None
        else None
      else if 0xF0 <= b0 < 0xF5 then
        if |bs| >= 4 && IsContinuation(bs[1]) && IsContinuation(bs[2]) && IsContinuation(bs[3]) then
          var cp := (b0 - 0xF0) * 0x40000 + (bs[1] as int - 0x80) * 0x1000 + (bs[2] as int - 0x80) * 0x40 + (bs[3] as int - 0x80);
          if cp < 0x10000 then None
          else match ToChar(cp)
            case Some(c) => Some((c, 4))
            case None => None
        else None
      else None
  }

  /** Decodes a whole octet sequence; fails on any ill-formed sequence. */
  function Decode(bs: seq<byte>): Option<string>
    decreases |bs|
  {
    if bs == [] then Some([])
    else match DecodeChar(bs)
      case None => None
      case Some((c, n)) =>
        match Decode(bs[n..])
        case None => None
        case Some(rest) => Some([c] + rest)
  }

  /** Splitting a code point into six-bit groups and joining them back is the identity. */
  lemma SixBitGroups(cp: nat)
    ensures cp == (cp / 0x40) * 0x40 + cp % 0x40
    ensures cp / 0x40 == (cp / 0x1000) * 0x40 + (cp / 0x40) % 0x40
    ensures cp / 0x1000 == (cp / 0x40000) * 0x40 + (cp / 0x1000) % 0x40
  {
    var q := cp / 0x40;
    assert q / 0x40 == cp / 0x1000;
    assert (cp / 0x1000) / 0x40 == cp / 0x40000;
  }

  /** Decoding the octets of one character, whatever follows them, gives it back. */
  lemma DecodeEncodeChar(c: char, rest: seq<byte>)
    ensures DecodeChar(EncodeChar(c) + rest) == Some((c, |EncodeChar(c)|))
  {
    var cp := c as int;
    var e := EncodeChar(c);
    var bs := e + rest;
    SixBitGroups(cp);
    if cp < 0x80 {
    } else if cp < 0x800 {
      assert bs[0] == e[0] && bs[1] == e[1];
    } else if cp < 0x10000 {
      assert bs[0] == e[0] && bs[1] == e[1] && bs[2] == e[2];
    } else {
      assert bs[0] == e[0] && bs[1] == e[1] && bs[2] == e[2] && bs[3] == e[3];
    }
  }

  /** UTF-8 round trip: decoding the encoding of any string gives the string back. */
  lemma {:induction false} DecodeEncode(s: string)
    ensures Decode(Encode(s)) == Some(s)
  {
    if s != [] {
      var e := EncodeChar(s[0]);
      DecodeEncodeChar(s[0], Encode(s[1..]));
      assert (e + Encode(s[1..]))[|e|..] == Encode(s[1..]);
      DecodeEncode(s[1..]);
      assert [s[0]] + s[1..] == s;
    }
  }
}
