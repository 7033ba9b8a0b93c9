/** Standard base64 (section 4 of RFC 4648) as `Convert.ToBase64String`
    writes it, and the shape of well-formed base64 text. */
module Base64 {
  import opened Strings

  type Byte = x: int | 0 <= x < 256

  /** A character of the standard alphabet; `=` is not one. */
  predicate IsBase64Char(c: char) {
    ('A' <= c <= 'Z') || ('a' <= c <= 'z') || ('0' <= c <= '9') || c == '+' || c == '/'
  }

  /** The alphabet's character for a 6-bit value: `A`-`Z`, `a`-`z`,
      `0`-`9`, `+`, `/`. */
  function Sextet(v: int): (c: char)
    requires 0 <= v < 64
    ensures IsBase64Char(c)
  {
    if v < 26 then ('A' as int + v) as char
    else if v < 52 then ('a' as int + (v - 26)) as char
    else if v < 62 then ('0' as int + (v - 52)) as char
    else if v == 62 then '+'
    else '/'
  }

  /** The 6-bit values of a group of three bytes: top six bits of the
      first, its low two with the high four of the second, the low four
      of the second with the high two of the third, the low six of the
      third. */
  function First6(b0: Byte): (v: int) ensures 0 <= v < 64 { b0 / 4 }

  function Second6(b0: Byte, b1: Byte): (v: int)
    ensures 0 <= v < 64
  {
    assert b0 % 4 <= 3 && b1 / 16 <= 15;
    (b0 % 4) * 16 + b1 / 16
  }

  function Third6(b1: Byte, b2: Byte): (v: int)
    ensures 0 <= v < 64
  {
    assert b1 % 16 <= 15 && b2 / 64 <= 3;
    (b1 % 16) * 4 + b2 / 64
  }

  function Fourth6(b2: Byte): (v: int) ensures 0 <= v < 64 { b2 % 64 }

  /** `Convert.ToBase64String`: every three bytes become four characters,
      and a final group of one or two bytes is padded with `=`. */
  function Encode(b: seq<Byte>): (r: string)
    ensures |r| == 4 * ((|b| + 2) / 3)
    decreases |b|
  {
    if |b| == 0 then ""
    else if |b| == 1 then
      [Sextet(First6(b[0])), Sextet(Second6(b[0], 0)), '=', '=']
    else if |b| == 2 then
      [Sextet(First6(b[0])), Sextet(Second6(b[0], b[1])), Sextet(Third6(b[1], 0)), '=']
    else
      assert (|b| + 2) / 3 == (|b| - 3 + 2) / 3 + 1;
      [Sextet(First6(b[0])), Sextet(Second6(b[0], b[1])),
       Sextet(Third6(b[1], b[2])), Sextet(Fourth6(b[2]))] + Encode(b[3..])
  }

  predicate IsPad(c: char) {
    c == '='
  }

  /** `s.TrimEnd('=')`. */
  function StripPadding(s: string): (r: string)
    ensures |r| <= |s| && r == s[..|r|]
    ensures forall i :: |r| <= i < |s| ==> s[i] == '='
    ensures |r| == 0 || r[|r| - 1] != '='
  {
    TrimEndWhere(s, IsPad)
  }

  /** Well-formed standard base64: whole groups of four, at most two `=`
      and those only at the end, every other character from the alphabet. */
  predicate WellFormed(s: string) {
    var body := StripPadding(s);
    && |s| % 4 == 0
    && |s| - |body| <= 2
    && forall i :: 0 <= i < |body| ==> IsBase64Char(body[i])
  }

  /** What `Convert.ToBase64String` writes is well-formed, and empty only
      for no bytes. */
  lemma {:induction false} EncodeWellFormed(b: seq<Byte>)
    ensures WellFormed(Encode(b))
    ensures |Encode(b)| > 0 <==> |b| > 0
    decreases |b|
  {
    if |b| == 1 {
      PaddedGroup(Encode(b), 2);
    } else if |b| == 2 {
      PaddedGroup(Encode(b), 3);
    } else if |b| > 2 {
      EncodeWellFormed(b[3..]);
      EncodeFirstGroup(b);
      FullGroupThen(Encode(b)[..4], Encode(b[3..]));
    }
  }

  /** Three or more bytes: a full group of four, then the rest. */
  lemma EncodeFirstGroup(b: seq<Byte>)
    requires |b| > 2
    ensures |Encode(b)| >= 4 && forall i :: 0 <= i < 4 ==> IsBase64Char(Encode(b)[i])
    ensures Encode(b) == Encode(b)[..4] + Encode(b[3..])
  {
  }

  /** A final group of four: `n` alphabet characters, then `=` padding. */
  lemma PaddedGroup(r: string, n: nat)
    requires |r| == 4 && 2 <= n <= 3
    requires forall i :: 0 <= i < n ==> IsBase64Char(r[i])
    requires forall i :: n <= i < 4 ==> r[i] == '='
    ensures WellFormed(r)
  {
    StripPaddingOf(r, n);
  }

  /** A full group in front of a well-formed string keeps it well-formed. */
  lemma FullGroupThen(head: string, tail: string)
    requires |head| == 4 && forall i :: 0 <= i < 4 ==> IsBase64Char(head[i])
    requires WellFormed(tail)
    ensures WellFormed(head + tail)
  {
    StripPaddingAppend(head, tail);
    var body := head + StripPadding(tail);
    forall i | 0 <= i < |body| ensures IsBase64Char(body[i]) {
      if i >= 4 {
        assert body[i] == StripPadding(tail)[i - 4];
      }
    }
  }

  /** Stripping stops at the last character that is not `=`. */
  lemma StripPaddingOf(s: string, n: nat)
    requires 0 < n <= |s| && s[n - 1] != '='
    requires forall i :: n <= i < |s| ==> s[i] == '='
    ensures StripPadding(s) == s[..n]
  {
    var r := StripPadding(s);
    if |r| < n {
      assert s[n - 1] == '=';
    }
  }

  /** A padding-free group in front does not change where padding starts. */
  lemma StripPaddingAppend(head: string, tail: string)
    requires |head| > 0 && head[|head| - 1] != '='
    ensures StripPadding(head + tail) == head + StripPadding(tail)
  {
    var s := head + tail;
    var t := StripPadding(tail);
    var n := |head| + |t|;
    if |t| == 0 {
      assert s[n - 1] == head[|head| - 1];
      StripPaddingOf(s, n);
      assert s[..n] == head;
    } else {
      assert s[n - 1] == t[|t| - 1];
      StripPaddingOf(s, n);
      assert s[..n] == head + t;
    }
  }
}
