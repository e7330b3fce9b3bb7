/**
 `encodeURIComponent` of ECMAScript (section 19.2.6.5 of ECMA-262, 2024
 edition): characters of the unreserved set pass through, every other
 character is UTF-8 encoded and each octet written as an upper-case `%XX`
 triplet (percent-encoding, section 2.1 of RFC 3986). The decoder here is
 the partner the round trip is proved against.
 */
module UriComponent {
  import opened Options
  import Utf8

  /** The characters `encodeURIComponent` leaves unescaped:
      A-Z a-z 0-9 and - _ . ! ~ * ' ( ). */
  predicate IsUnreserved(c: char) {
    || ('A' <= c <= 'Z') || ('a' <= c <= 'z') || ('0' <= c <= '9')
    || c == '-' || c == '_' || c == '.' || c == '!' || c == '~' || c == '*'
    || c == '\'' || c == '(' || c == ')'
  }

  predicate IsUpperHex(c: char) {
    ('0' <= c <= '9') || ('A' <= c <= 'F')
  }

  /** The upper-case hexadecimal digit of a value below sixteen. */
  function HexDigit(n: int): (c: char)
    requires 0 <= n < 16
    ensures IsUpperHex(c) && HexValue(c) == n
  {
    if n < 10 then ('0' as int + n) as char else ('A' as int + n - 10) as char
  }

  /** The value of a hexadecimal digit; lower case is accepted when decoding. */
  function HexValue(c: char): (n: int)
    ensures 0 <= n < 16
  {
    if '0' <= c <= '9' then c as int - '0' as int
    else if 'A' <= c <= 'F' then c as int - 'A' as int + 10
    else if 'a' <= c <= 'f' then c as int - 'a' as int + 10
    else 0
  }

  predicate IsHex(c: char) {
    IsUpperHex(c) || ('a' <= c <= 'f')
  }

  /** One octet as a `%XX` triplet. */
  function PercentOctet(b: Utf8.byte): (r: string)
    ensures |r| == 3 && r[0] == '%' && IsUpperHex(r[1]) && IsUpperHex(r[2])
    ensures HexValue(r[1]) * 16 + HexValue(r[2]) == b
  {
    ['%', HexDigit(b / 16), HexDigit(b % 16)]
  }

  function PercentOctets(bs: seq<Utf8.byte>): string {
    if bs == [] then [] else PercentOctet(bs[0]) + PercentOctets(bs[1..])
  }

  /** One character of the input, as `encodeURIComponent` writes it. */
  function EncodeChar(c: char): string {
    if IsUnreserved(c) then [c] else PercentOctets(Utf8.EncodeChar(c))
  }

  /** `encodeURIComponent`, character by character. */
  function EncodeURIComponent(s: string): string {
    if s == [] then [] else EncodeChar(s[0]) + EncodeURIComponent(s[1..])
  }

  lemma {:induction false} EncodeAppend(a: string, b: string)
    ensures EncodeURIComponent(a + b) == EncodeURIComponent(a) + EncodeURIComponent(b)
  {
    if a == [] {
      assert a + b == b;
    } else {
      assert (a + b)[1..] == a[1..] + b;
      EncodeAppend(a[1..], b);
    }
  }

  // ---------------------------------------------------------------------
  // The octet view: encoding is percent-encoding of the UTF-8 octets,
  // with the octets of unreserved ASCII characters written as themselves.
  // ---------------------------------------------------------------------

  function EncodeOctet(b: Utf8.byte): string {
    if b < 0x80 && IsUnreserved(b as char) then [b as char] else PercentOctet(b)
  }

  function EncodeOctets(bs: seq<Utf8.byte>): string {
    if bs == [] then [] else EncodeOctet(bs[0]) + EncodeOctets(bs[1..])
  }

  lemma {:induction false} EncodeOctetsAppend(a: seq<Utf8.byte>, b: seq<Utf8.byte>)
    ensures EncodeOctets(a + b) == EncodeOctets(a) + EncodeOctets(b)
  {
    if a == [] {
      assert a + b == b;
    } else {
      assert (a + b)[1..] == a[1..] + b;
      EncodeOctetsAppend(a[1..], b);
    }
  }

  /** Octets of a non-ASCII character are all escaped. */
  lemma {:induction false} HighOctetsEscaped(bs: seq<Utf8.byte>)
    requires forall i :: 0 <= i < |bs| ==> bs[i] >= 0x80
    ensures EncodeOctets(bs) == PercentOctets(bs)
  {
    if bs != [] {
      HighOctetsEscaped(bs[1..]);
    }
  }

  /** `encodeURIComponent` is the octet-wise encoding of the UTF-8 form. */
  lemma {:induction false} EncodeViaOctets(s: string)
    ensures EncodeURIComponent(s) == EncodeOctets(Utf8.Encode(s))
  {
    if s != [] {
      var c := s[0];
      var e := Utf8.EncodeChar(c);
      EncodeOctetsAppend(e, Utf8.Encode(s[1..]));
      EncodeViaOctets(s[1..]);
      if c as int < 0x80 {
        assert e == [c as int];
        assert (c as int) as char == c;
        assert EncodeOctets(e) == EncodeOctet(e[0]) + EncodeOctets([]);
        assert PercentOctets(e) == PercentOctet(e[0]) + PercentOctets([]);
        assert EncodeChar(c) == EncodeOctets(e);
      } else {
        HighOctetsEscaped(e);
      }
    }
  }

  // ---------------------------------------------------------------------
  // Shape of the output
  // ---------------------------------------------------------------------

  /** Only unreserved characters and upper-case `%XX` triplets. */
  predicate WellFormed(t: string)
    decreases |t|
  {
    if t == [] then true
    else if IsUnreserved(t[0]) then WellFormed(t[1..])
    else |t| >= 3 && t[0] == '%' && IsUpperHex(t[1]) && IsUpperHex(t[2]) && WellFormed(t[3..])
  }

  lemma {:induction false} WellFormedAppend(a: string, b: string)
    requires WellFormed(a) && WellFormed(b)
    ensures WellFormed(a + b)
    decreases |a|
  {
    if a == [] {
      assert a + b == b;
    } else if IsUnreserved(a[0]) {
      assert (a + b)[1..] == a[1..] + b;
      WellFormedAppend(a[1..], b);
    } else {
      assert (a + b)[3..] == a[3..] + b;
      WellFormedAppend(a[3..], b);
    }
  }

  lemma {:induction false} EncodeOctetsWellFormed(bs: seq<Utf8.byte>)
    ensures WellFormed(EncodeOctets(bs))
  {
    if bs != [] {
      var h := EncodeOctet(bs[0]);
      EncodeOctetsWellFormed(bs[1..]);
      if !(bs[0] < 0x80 && IsUnreserved(bs[0] as char)) {
        assert h[3..] == [];
      }
      WellFormedAppend(h, EncodeOctets(bs[1..]));
    }
  }

  /** The encoded text consists of unreserved characters and upper-case `%XX` triplets only. */
  lemma EncodeWellFormed(s: string)
    ensures WellFormed(EncodeURIComponent(s))
  {
    EncodeViaOctets(s);
    EncodeOctetsWellFormed(Utf8.Encode(s));
  }

  /** Text made of unreserved characters is left as it is. */
  lemma {:induction false} UnreservedUnchanged(s: string)
    requires forall i :: 0 <= i < |s| ==> IsUnreserved(s[i])
    ensures EncodeURIComponent(s) == s
  {
    if s != [] {
      UnreservedUnchanged(s[1..]);
      assert [s[0]] + s[1..] == s;
    }
  }

  // ---------------------------------------------------------------------
  // Decoding, the partner of the encoder
  // ---------------------------------------------------------------------

  /** Reads `%XX` triplets and ASCII characters back into octets. */
  function PercentDecode(t: string): Option<seq<Utf8.byte>>
    decreases |t|
  {
    if t == [] then Some([])
    else if t[0] == '%' then
      if |t| >= 3 && IsHex(t[1]) && IsHex(t[2]) then
        match PercentDecode(t[3..])
        case None => None
        case Some(rest) => Some([HexValue(t[1]) * 16 + HexValue(t[2])] + rest)
      else None
    else if t[0] as int < 0x80 then
      match PercentDecode(t[1..])
      case None => None
      case Some(rest) => Some([t[0] as int] + rest)
    else None
  }

  /** Percent-decoding, then UTF-8 decoding. */
  function DecodeURIComponent(t: string): Option<string> {
    match PercentDecode(t)
    case None => None
    case Some(bs) => Utf8.Decode(bs)
  }

  lemma {:induction false} PercentDecodeEncodeOctets(bs: seq<Utf8.byte>)
    ensures PercentDecode(EncodeOctets(bs)) == Some(bs)
  {
    if bs != [] {
      var b := bs[0];
      var h := EncodeOctet(b);
      var t := h + EncodeOctets(bs[1..]);
      PercentDecodeEncodeOctets(bs[1..]);
      if b < 0x80 && IsUnreserved(b as char) {
        assert t[1..] == EncodeOctets(bs[1..]);
      } else {
        assert t[3..] == EncodeOctets(bs[1..]);
        assert t[1] == h[1] && t[2] == h[2];
      }
      assert [b] + bs[1..] == bs;
    }
  }

  /** Round trip: decoding the encoding of any text gives the text back. */
  lemma DecodeEncode(s: string)
    ensures DecodeURIComponent(EncodeURIComponent(s)) == Some(s)
  {
    EncodeViaOctets(s);
    PercentDecodeEncodeOctets(Utf8.Encode(s));
    Utf8.DecodeEncode(s);
  }

  /** Different texts never share an encoding. */
  lemma EncodeInjective(s: string, t: string)
    requires EncodeURIComponent(s) == EncodeURIComponent(t)
    ensures s == t
  {
    DecodeEncode(s);
    DecodeEncode(t);
  }
}
