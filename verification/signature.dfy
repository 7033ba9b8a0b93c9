/** The URL-safe form of a base64 signature (section 5 of RFC 4648) as
    the token builder writes it, and the repair the header parser applies
    to turn it back into standard base64 with padding (section 4). */
module UrlSafeSignature {
  import opened Strings
  import opened Base64

  /** `sig.TrimEnd('=').Replace('+', '-').Replace('/', '_')`. */
  function UrlSafe(sig: string): (r: string)
    ensures |r| <= |sig|
    ensures '+' !in r && '/' !in r
    ensures |r| == 0 || r[|r| - 1] != '='
  {
    var body := StripPadding(sig);
    var r := Replace(Replace(body, '+', '-'), '/', '_');
    assert |r| == 0 || r[|r| - 1] != '=' by {
      if |r| > 0 {
        assert Replace(body, '+', '-')[|r| - 1] != '=';
      }
    }
    r
  }

  /** The repair of the `sig` field: the URL-safe characters are mapped
      back, then `==` is appended to a length of 2 modulo 4 and `=` to a
      length of 3 modulo 4; lengths of 0 and 1 modulo 4 are left alone.
      The length is `String.Length`, counted in UTF-16 code units. */
  function RepairSig(v: string): (r: string)
    ensures var n := Utf16Length(v) % 4;
      |r| == |v| + (if n == 2 then 2 else if n == 3 then 1 else 0)
    ensures forall i :: 0 <= i < |v| ==> r[i] == Restore(v[i])
    ensures forall i :: |v| <= i < |r| ==> r[i] == '='
    ensures Utf16Length(r) % 4 == 0 || Utf16Length(r) % 4 == 1
    ensures '-' !in r && '_' !in r
  {
    var w := Replace(Replace(v, '-', '+'), '_', '/');
    RestoreAll(v);
    var k := Utf16Length(w) % 4;
    var pad := if k == 2 then "==" else if k == 3 then "=" else "";
    Padded(w, pad);
    PaddedLength(Utf16Length(w), |pad|, Utf16Length(w + pad));
    w + pad
  }

  /** The padding brings a length to 0 or 1 modulo 4. */
  lemma PaddedLength(n: nat, pad: nat, m: nat)
    requires pad == (if n % 4 == 2 then 2 else if n % 4 == 3 then 1 else 0)
    requires m == n + pad
    ensures m % 4 == 0 || m % 4 == 1
  {
  }

  /** The two `Replace` calls map every character through `Restore`. */
  lemma RestoreAll(v: string)
    ensures var w := Replace(Replace(v, '-', '+'), '_', '/');
      && |w| == |v| && Utf16Length(w) == Utf16Length(v)
      && (forall i :: 0 <= i < |v| ==> w[i] == Restore(v[i]))
      && '-' !in w && '_' !in w
  {
    Utf16LengthReplace(v, '-', '+');
    Utf16LengthReplace(Replace(v, '-', '+'), '_', '/');
  }

  /** Appending padding `=` characters. */
  lemma Padded(w: string, pad: string)
    requires forall i :: 0 <= i < |pad| ==> pad[i] == '='
    requires '-' !in w && '_' !in w
    ensures Utf16Length(w + pad) == Utf16Length(w) + |pad|
    ensures forall i :: 0 <= i < |w| ==> (w + pad)[i] == w[i]
    ensures forall i :: |w| <= i < |w + pad| ==> (w + pad)[i] == '='
    ensures '-' !in w + pad && '_' !in w + pad
  {
    Utf16LengthConcat(w, pad);
    assert InBmp(pad);
    Utf16LengthBmp(pad);
  }

  /** The repair undoes the URL-safe rewriting of every well-formed
      standard base64 string. */
  lemma RepairUrlSafe(sig: string)
    requires WellFormed(sig)
    ensures RepairSig(UrlSafe(sig)) == sig
  {
    var body := StripPadding(sig);
    var u := UrlSafe(sig);
    UrlSafeBody(sig);
    Utf16LengthBmp(u);
    var r := RepairSig(u);
    PaddingRestored(|sig|, |body|);
    assert |r| == |sig|;
    forall i | 0 <= i < |sig| ensures r[i] == sig[i] {
      if i < |body| {
        assert sig[i] == body[i];
      }
    }
  }

  /** A body of `b` characters padded to a multiple of four with at most
      two `=` gets exactly the padding the repair appends. */
  lemma PaddingRestored(n: nat, b: nat)
    requires n % 4 == 0 && b <= n <= b + 2
    ensures n == b + (if b % 4 == 2 then 2 else if b % 4 == 3 then 1 else 0)
  {
  }

  /** Mapping the URL-safe characters back, as the repair does. */
  function Restore(c: char): char {
    if c == '-' then '+' else if c == '_' then '/' else c
  }

  /** The URL-safe form of a well-formed signature is its unpadded body,
      character for character, in the Basic Multilingual Plane. */
  lemma UrlSafeBody(sig: string)
    requires WellFormed(sig)
    ensures |UrlSafe(sig)| == |StripPadding(sig)|
    ensures InBmp(UrlSafe(sig))
    ensures forall i :: 0 <= i < |UrlSafe(sig)| ==> Restore(UrlSafe(sig)[i]) == StripPadding(sig)[i]
  {
    var body := StripPadding(sig);
    var u := UrlSafe(sig);
    assert u == Replace(Replace(body, '+', '-'), '/', '_');
    forall i | 0 <= i < |u| ensures CodeUnits(u[i]) == 1 && Restore(u[i]) == body[i] {
      assert IsBase64Char(body[i]);
    }
  }

  /** The URL-safe form of a well-formed signature uses only characters
      that a header field value can carry unharmed. */
  lemma UrlSafeAlphabet(sig: string, c: char)
    requires WellFormed(sig) && c in UrlSafe(sig)
    ensures c == '-' || c == '_' || ('A' <= c <= 'Z') || ('a' <= c <= 'z') || ('0' <= c <= '9')
  {
    var body := StripPadding(sig);
    var k :| 0 <= k < |UrlSafe(sig)| && UrlSafe(sig)[k] == c;
    assert IsBase64Char(body[k]);
  }
}
