/** The optional value used throughout the model. */
module Options {

  /** A value that may be absent (a DOM lookup that found nothing, a parse that failed). */
  datatype Option<+T> = None | Some(value: T)
}

/**
 Character classes and string helpers of ECMAScript that the page scripts rely on:
 the regular-expression classes \s, \d and \D, `String.prototype.trim`,
 `String.prototype.includes` and `replace(/\D/g, '')`.
 Strings are sequences of Unicode scalar values.
 */
module Chars {

  /** WhiteSpace or LineTerminator as ECMAScript defines them: the class \s of a
      regular expression and the characters `trim` removes. Space_Separator (Zs)
      is U+0020, U+00A0, U+1680, U+2000 to U+200A, U+202F, U+205F and U+3000. */
  predicate IsWhitespace(c: char) {
    || c == '\t' || c == '\U{000B}' || c == '\U{000C}' || c == '\U{FEFF}'
    || c == '\n' || c == '\r' || c == '\U{2028}' || c == '\U{2029}'
    || c == ' ' || c == '\U{00A0}' || c == '\U{1680}'
    || ('\U{2000}' <= c <= '\U{200A}')
    || c == '\U{202F}' || c == '\U{205F}' || c == '\U{3000}'
  }

  /** The class \d: the ASCII decimal digits only. */
  predicate IsDigit(c: char) {
    '0' <= c <= '9'
  }

  predicate AllWhitespace(s: string) {
    forall i :: 0 <= i < |s| ==> IsWhitespace(s[i])
  }

  predicate NoWhitespace(s: string) {
    forall i :: 0 <= i < |s| ==> !IsWhitespace(s[i])
  }

  /** Every character of `s[i..j]` is whitespace. */
  predicate WhitespaceBetween(s: string, i: int, j: int)
    requires 0 <= i <= j <= |s|
  {
    forall k :: i <= k < j ==> IsWhitespace(s[k])
  }

  lemma WhitespaceSlice(s: string, i: int, j: int)
    requires 0 <= i <= j <= |s| && WhitespaceBetween(s, i, j)
    ensures AllWhitespace(s[i..j])
  {
    forall k | 0 <= k < j - i
      ensures IsWhitespace(s[i..j][k])
    {
      assert s[i..j][k] == s[i + k];
    }
  }

  /** A string `trim` leaves alone: it neither starts nor ends with whitespace. */
  predicate IsTrimmed(s: string) {
    s == [] || (!IsWhitespace(s[0]) && !IsWhitespace(s[|s| - 1]))
  }

  /** The first index at or after `i` that holds no whitespace, or |s|. */
  function SkipStart(s: string, i: nat): (a: nat)
    requires i <= |s|
    ensures i <= a <= |s| && WhitespaceBetween(s, i, a)
    ensures a < |s| ==> !IsWhitespace(s[a])
    decreases |s| - i
  {
    if i < |s| && IsWhitespace(s[i]) then SkipStart(s, i + 1) else i
  }

  /** The end, at or below `j` and not below `lo`, of `s[lo..j]` without its trailing whitespace. */
  function SkipEnd(s: string, lo: nat, j: nat): (b: nat)
    requires lo <= j <= |s|
    ensures lo <= b <= j && WhitespaceBetween(s, b, j)
    ensures lo < b ==> !IsWhitespace(s[b - 1])
    decreases j
  {
    if lo < j && IsWhitespace(s[j - 1]) then SkipEnd(s, lo, j - 1) else j
  }

  /** `s` is some whitespace, then `r` starting at index `a`, then some whitespace. */
  predicate TrimSplit(s: string, r: string, a: int) {
    && 0 <= a && a + |r| <= |s|
    && s[a..a + |r|] == r
    && WhitespaceBetween(s, 0, a)
    && WhitespaceBetween(s, a + |r|, |s|)
  }

  /** `String.prototype.trim`: the infix of `s` left once whitespace is removed from both ends. */
  function Trim(s: string): (r: string)
    ensures IsTrimmed(r)
    ensures exists a :: TrimSplit(s, r, a)
  {
    var a := SkipStart(s, 0);
    var b := SkipEnd(s, a, |s|);
    assert TrimSplit(s, s[a..b], a);
    s[a..b]
  }

  /** `Trim` is the only trimmed infix of `s` framed by whitespace on both sides. */
  lemma TrimUnique(s: string, r: string, a: int)
    requires TrimSplit(s, r, a) && IsTrimmed(r)
    ensures r == Trim(s)
  {
    var t := Trim(s);
    var b :| TrimSplit(s, t, b);
    if r == [] || t == [] {
      if r == [] {
        AllWhitespaceOfFrame(s, r, a);
      } else {
        AllWhitespaceOfFrame(s, t, b);
      }
      assert r == t;
    } else {
      FrameBounds(s, r, a);
      FrameBounds(s, t, b);
      assert a == b;
      assert a + |r| == b + |t|;
    }
  }

  /** A non-empty trimmed infix framed by whitespace starts at the first
      non-whitespace character of `s` and ends after the last one. */
  lemma FrameBounds(s: string, r: string, a: int)
    requires TrimSplit(s, r, a) && IsTrimmed(r) && r != []
    ensures !IsWhitespace(s[a]) && !IsWhitespace(s[a + |r| - 1])
  {
    assert s[a] == r[0];
    assert s[a + |r| - 1] == r[|r| - 1];
  }

  /** When the kept infix is empty, the whole string is whitespace. */
  lemma AllWhitespaceOfFrame(s: string, r: string, a: int)
    requires TrimSplit(s, r, a) && r == []
    ensures AllWhitespace(s)
  {
    assert forall i :: 0 <= i < |s| ==> (i < a || a <= i) ==> IsWhitespace(s[i]);
  }

  /** Trimming twice is trimming once. */
  lemma TrimIdempotent(s: string)
    ensures Trim(Trim(s)) == Trim(s)
  {
    var t := Trim(s);
    assert TrimSplit(t, t, 0) by {
      assert t[0..|t|] == t;
    }
    TrimUnique(t, t, 0);
  }

  /** The trimmed value is empty exactly when the whole input is whitespace. */
  lemma TrimEmptyIff(s: string)
    ensures Trim(s) == [] <==> AllWhitespace(s)
  {
    var t := Trim(s);
    var a :| TrimSplit(s, t, a);
    if t == [] {
      AllWhitespaceOfFrame(s, t, a);
    }
    if AllWhitespace(s) {
      assert TrimSplit(s, [], 0);
      TrimUnique(s, [], 0);
    }
  }

  /** A string without whitespace at all is its own trim. */
  lemma TrimNoWhitespace(s: string)
    requires NoWhitespace(s)
    ensures Trim(s) == s
  {
    assert TrimSplit(s, s, 0) by {
      assert s[0..|s|] == s;
    }
    TrimUnique(s, s, 0);
  }

  /** `s` is the whitespace before the trimmed value, the value, and the whitespace after it. */
  lemma TrimParts(s: string) returns (a: int)
    ensures 0 <= a && a + |Trim(s)| <= |s|
    ensures s == s[..a] + Trim(s) + s[a + |Trim(s)|..]
    ensures AllWhitespace(s[..a]) && AllWhitespace(s[a + |Trim(s)|..])
  {
    var t := Trim(s);
    a :| TrimSplit(s, t, a);
    WhitespaceSlice(s, 0, a);
    WhitespaceSlice(s, a + |t|, |s|);
    assert s[..a] == s[0..a];
    assert s == s[..a] + s[a..a + |t|] + s[a + |t|..];
  }

  /** `s.replace(/\D/g, '')`: the digits of `s`, in order. */
  function Digits(s: string): (r: string)
    ensures |r| <= |s|
    ensures forall i :: 0 <= i < |r| ==> IsDigit(r[i])
    ensures forall c :: c in r <==> c in s && IsDigit(c)
  {
    if s == [] then []
    else (if IsDigit(s[0]) then [s[0]] else []) + Digits(s[1..])
  }

  /** No digit survives exactly when the string has none. */
  lemma DigitsEmptyIff(s: string)
    ensures Digits(s) == [] <==> forall i :: 0 <= i < |s| ==> !IsDigit(s[i])
  {
    if Digits(s) != [] {
      assert Digits(s)[0] in s;
    }
  }

  /** Removing the non-digits distributes over concatenation. */
  lemma {:induction false} DigitsAppend(a: string, b: string)
    ensures Digits(a + b) == Digits(a) + Digits(b)
  {
    if a == [] {
      assert a + b == b;
    } else {
      assert (a + b)[1..] == a[1..] + b;
      DigitsAppend(a[1..], b);
    }
  }

  /** A string of digits is unchanged by removing the non-digits. */
  lemma {:induction false} DigitsOfDigits(s: string)
    requires forall i :: 0 <= i < |s| ==> IsDigit(s[i])
    ensures Digits(s) == s
  {
    if s != [] {
      DigitsOfDigits(s[1..]);
    }
  }

  /** The positions below `n` at which `s` holds a digit. */
  function DigitPositions(s: string, n: int): set<int>
    requires 0 <= n <= |s|
  {
    set i | 0 <= i < n && IsDigit(s[i])
  }

  /** How many characters of `s` are digits, counted by position. */
  function DigitCount(s: string): nat {
    |DigitPositions(s, |s|)|
  }

  /** The digits kept from a prefix are as many as the digit positions in it. */
  lemma {:induction false} DigitsOfPrefixCount(s: string, n: int)
    requires 0 <= n <= |s|
    ensures |Digits(s[..n])| == |DigitPositions(s, n)|
    decreases n
  {
    if n == 0 {
      assert DigitPositions(s, 0) == {};
      assert s[..0] == [];
    } else {
      DigitsOfPrefixCount(s, n - 1);
      assert s[..n] == s[..n - 1] + [s[n - 1]];
      DigitsSnoc(s[..n - 1], s[n - 1]);
      PositionsStep(s, n);
    }
  }

  /** One more character adds one kept digit exactly when it is a digit. */
  lemma DigitsSnoc(a: string, c: char)
    ensures |Digits(a + [c])| == |Digits(a)| + if IsDigit(c) then 1 else 0
  {
    DigitsAppend(a, [c]);
    assert [c][1..] == [];
  }

  /** One more position adds itself to the digit positions exactly when it holds a digit. */
  lemma PositionsStep(s: string, n: int)
    requires 0 < n <= |s|
    ensures |DigitPositions(s, n)| == |DigitPositions(s, n - 1)| + if IsDigit(s[n - 1]) then 1 else 0
  {
    if IsDigit(s[n - 1]) {
      assert DigitPositions(s, n) == DigitPositions(s, n - 1) + {n - 1};
    } else {
      assert DigitPositions(s, n) == DigitPositions(s, n - 1);
    }
  }

  /** `replace(/\D/g, '').length` is the number of digit characters of `s`. */
  lemma DigitsLengthIsCount(s: string)
    ensures |Digits(s)| == DigitCount(s)
  {
    DigitsOfPrefixCount(s, |s|);
    assert s[..|s|] == s;
  }

  /** Whitespace holds no digits. */
  lemma {:induction false} DigitsOfWhitespace(s: string)
    requires AllWhitespace(s)
    ensures Digits(s) == []
  {
    if s != [] {
      assert !IsDigit(s[0]);
      DigitsOfWhitespace(s[1..]);
    }
  }

  /** Trimming keeps every digit. */
  lemma TrimKeepsDigits(s: string)
    ensures Digits(Trim(s)) == Digits(s)
  {
    var t := Trim(s);
    var a := TrimParts(s);
    DigitsOfWhitespace(s[..a]);
    DigitsOfWhitespace(s[a + |t|..]);
    DigitsFramed(s[..a], t, s[a + |t|..]);
  }

  /** Text without digits on either side adds no digit. */
  lemma DigitsFramed(pre: string, t: string, post: string)
    requires Digits(pre) == [] && Digits(post) == []
    ensures Digits(pre + t + post) == Digits(t)
  {
    DigitsAppend(pre + t, post);
    DigitsAppend(pre, t);
  }

  /** Trimming keeps every character that is not whitespace. */
  lemma TrimKeepsChar(s: string, c: char)
    requires !IsWhitespace(c)
    ensures c in Trim(s) <==> c in s
  {
    var t := Trim(s);
    var a := TrimParts(s);
    var pre, post := s[..a], s[a + |t|..];
    assert c !in pre && c !in post;
    assert c in s <==> c in pre || c in t || c in post;
  }

  /** The number of occurrences of `c` in `s`. */
  function Count(s: string, c: char): (n: nat)
    ensures n <= |s|
    ensures n == 0 <==> c !in s
  {
    if s == [] then 0 else (if s[0] == c then 1 else 0) + Count(s[1..], c)
  }

  lemma {:induction false} CountAppend(a: string, b: string, c: char)
    ensures Count(a + b, c) == Count(a, c) + Count(b, c)
  {
    if a == [] {
      assert a + b == b;
    } else {
      assert (a + b)[1..] == a[1..] + b;
      CountAppend(a[1..], b, c);
    }
  }

  /** With exactly one occurrence of `c` at index `k`, no other index holds `c`. */
  lemma CountOne(s: string, c: char, k: int)
    requires 0 <= k < |s| && s[k] == c && Count(s, c) == 1
    ensures c !in s[..k] && c !in s[k + 1..]
  {
    assert s == s[..k] + [s[k]] + s[k + 1..];
    CountAppend(s[..k] + [s[k]], s[k + 1..], c);
    CountAppend(s[..k], [s[k]], c);
  }
}
