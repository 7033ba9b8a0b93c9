/** The two sides together: a header built by the edge module is read
    back by the function app as the resource, expiry and signature that
    went into it, and the signature checks out until the expiry. */
module Protocol {
  import opened Wrappers
  import opened Strings
  import opened Base64
  import opened Decimal
  import opened UrlSafeSignature
  import opened Platform
  import RequestedResource
  import H = AuthorizationHeaderHandler
  import T = TokenBuilder

  /* ---------------------------------------------------------------- */
  /* From header text to fields                                        */
  /* ---------------------------------------------------------------- */

  /** The fields part of an assembled header. */
  function FieldText(sr: string, sig: string, se: string): string {
    "sr=" + sr + "&sig=" + sig + "&se=" + se
  }

  lemma HeaderText(sr: string, sig: string, se: string)
    ensures T.AssembleHeader(sr, sig, se) == H.Prefix + FieldText(sr, sig, se)
  {
    assert "SharedAccessSignature sr=" == H.Prefix + "sr=";
  }

  lemma PrefixChars()
    ensures |H.Prefix| == 22 && ' ' in H.Prefix && '=' !in H.Prefix && '&' !in H.Prefix
  {
    assert H.Prefix[21] == ' ';
  }

  /** The field text cut at its `=` and `&` characters. */
  lemma FieldTextPieces(sr: string, sig: string, se: string)
    ensures FieldText(sr, sig, se)
         == "sr" + ['='] + sr + ['&'] + "sig" + ['='] + sig + ['&'] + "se" + ['='] + se
    ensures FieldText(sr, sig, se)
         == ("sr=" + sr) + ['&'] + (("sig=" + sig) + ['&'] + ("se=" + se))
  {
    assert "sr=" == "sr" + ['='];
    assert "&sig=" == ['&'] + "sig" + ['='];
    assert "&se=" == ['&'] + "se" + ['='];
    assert "sig=" == "sig" + ['='];
    assert "se=" == "se" + ['='];
  }

  /** The field text holds no `SharedAccessSignature ` of its own. */
  lemma NoPrefixInFields(sr: string, sig: string, se: string)
    requires !Contains(sr, H.Prefix) && ' ' !in sig && ' ' !in se
    ensures !Contains(FieldText(sr, sig, se), H.Prefix)
  {
    var pat := H.Prefix;
    PrefixChars();
    FieldTextPieces(sr, sig, se);
    ShortNotContains("sr", pat);
    ShortNotContains("sig", pat);
    ShortNotContains("se", pat);
    NotContainsMissingChar(sig, pat, ' ');
    NotContainsMissingChar(se, pat, ' ');
    NotContainsAcross("sr", '=', sr, pat);
    NotContainsAcross("sr" + ['='] + sr, '&', "sig", pat);
    NotContainsAcross("sr" + ['='] + sr + ['&'] + "sig", '=', sig, pat);
    NotContainsAcross("sr" + ['='] + sr + ['&'] + "sig" + ['='] + sig, '&', "se", pat);
    NotContainsAcross("sr" + ['='] + sr + ['&'] + "sig" + ['='] + sig + ['&'] + "se", '=', se, pat);
  }

  /** Trimming leaves the field text alone. */
  lemma FieldTextTrimmed(sr: string, sig: string, se: string)
    requires |se| > 0 && !IsWhiteSpace(se[|se| - 1])
    ensures Trim(FieldText(sr, sig, se)) == FieldText(sr, sig, se)
  {
    var t := FieldText(sr, sig, se);
    assert t[0] == 's';
    assert t[|t| - 1] == se[|se| - 1];
    TrimUnchanged(t);
  }

  /** Splitting the field text on `&` gives back the three fields. */
  lemma FieldTextSplit(sr: string, sig: string, se: string)
    requires '&' !in sr && '&' !in sig && '&' !in se
    ensures Split(FieldText(sr, sig, se), '&') == ["sr=" + sr, "sig=" + sig, "se=" + se]
  {
    FieldTextPieces(sr, sig, se);
    assert '&' !in "sr=" && '&' !in "sig=" && '&' !in "se=";
    SplitFirst("sr=" + sr, '&', ("sig=" + sig) + ['&'] + ("se=" + se));
    SplitFirst("sig=" + sig, '&', "se=" + se);
    SplitSeparatorFree("se=" + se, '&');
  }

  /** The decoded header falls apart into exactly the three fields. */
  lemma AssembledFields(sr: string, sig: string, se: string)
    requires '&' !in sr && !Contains(sr, H.Prefix)
    requires '&' !in sig && ' ' !in sig
    requires '&' !in se && ' ' !in se && |se| > 0 && !IsWhiteSpace(se[|se| - 1])
    ensures H.Fields(T.AssembleHeader(sr, sig, se)) == ["sr=" + sr, "sig=" + sig, "se=" + se]
  {
    HeaderText(sr, sig, se);
    NoPrefixInFields(sr, sig, se);
    PrefixChars();
    RemoveLeading(H.Prefix, FieldText(sr, sig, se));
    FieldTextTrimmed(sr, sig, se);
    FieldTextSplit(sr, sig, se);
  }

  /* ---------------------------------------------------------------- */
  /* From fields to the handler                                        */
  /* ---------------------------------------------------------------- */

  lemma FoldedNames()
    ensures FoldCase("sr") == "SR" && FoldCase("se") == "SE" && FoldCase("sig") == "SIG"
  {
  }

  /** The three fields the edge module writes make a handler holding the
      resource parsed from `sr`, the `se` text and the repaired `sig`. */
  lemma ThreeFieldsRead(sr: string, rawSig: string, se: string)
    requires '=' !in sr && '=' !in rawSig && '=' !in se
    requires RequestedResource.Parse(sr).Success?
    ensures H.FromFields(["sr=" + sr, "sig=" + rawSig, "se=" + se])
         == Success(H.Handler(RequestedResource.Parse(sr).value, se, RepairSig(rawSig)))
  {
    FieldNames();
    H.SigRepairIsCaseSensitive("sr", sr);
    H.SigRepairIsCaseSensitive("sig", rawSig);
    H.SigRepairIsCaseSensitive("se", se);
    ReadThree("sr=" + sr, "sig=" + rawSig, "se=" + se);
  }

  lemma FieldNames()
    ensures "sr=" == "sr" + "=" && "sig=" == "sig" + "=" && "se=" == "se" + "="
    ensures '=' !in "sr" && '=' !in "sig" && '=' !in "se"
    ensures "sr" != "sig" && "se" != "sig"
  {
  }

  /** Fields keyed `sr`, `sig` and `se`, in that order, make a handler. */
  lemma ReadThree(f0: string, f1: string, f2: string)
    requires '=' in f0 && '=' in f1 && '=' in f2
    requires H.KeyOf(f0) == FoldCase("sr") && H.KeyOf(f1) == FoldCase("sig") && H.KeyOf(f2) == FoldCase("se")
    requires RequestedResource.Parse(H.ValueOf(f0)).Success?
    ensures H.FromFields([f0, f1, f2])
         == Success(H.Handler(RequestedResource.Parse(H.ValueOf(f0)).value, H.ValueOf(f2), H.ValueOf(f1)))
  {
    var fields := [f0, f1, f2];
    FoldedNames();
    ThreeKeysAcceptable(f0, f1, f2);
    H.FromFieldsReads(fields, 0, 2, 1);
  }

  /** Three non-empty fields with distinct keys go into the dictionary. */
  lemma ThreeKeysAcceptable(f0: string, f1: string, f2: string)
    requires '=' in f0 && '=' in f1 && '=' in f2
    requires H.KeyOf(f0) != H.KeyOf(f1) && H.KeyOf(f0) != H.KeyOf(f2) && H.KeyOf(f1) != H.KeyOf(f2)
    ensures H.Acceptable([f0, f1, f2], map[])
  {
    var fields := [f0, f1, f2];
    forall i, j | 0 <= i < j < |fields| && fields[i] != "" && fields[j] != "" && '=' in fields[i] && '=' in fields[j]
      ensures H.KeyOf(fields[i]) != H.KeyOf(fields[j])
    {
      if i == 0 && j == 1 {
        assert fields[i] == f0 && fields[j] == f1;
      } else if i == 0 {
        assert fields[i] == f0 && fields[j] == f2;
      } else {
        assert fields[i] == f1 && fields[j] == f2;
      }
    }
  }

  /* ---------------------------------------------------------------- */
  /* Build, then parse, then validate                                  */
  /* ---------------------------------------------------------------- */

  /** The resource the edge module signs. */
  function Uri(id: T.Identity): string {
    T.ResourceUri(id.hub, id.device, id.moduleId)
  }

  /** What the module's environment must satisfy for its header to be read
      back: non-empty names, and no `&`, `=` or `SharedAccessSignature `
      in the resource they make up. */
  predicate Transmissible(id: T.Identity) {
    && |id.hub| > 0 && |id.device| > 0 && |id.moduleId| > 0
    && '&' !in Uri(id) && '=' !in Uri(id) && !Contains(Uri(id), H.Prefix)
  }

  /** The expiry text holds only digits and a leading `-`. */
  lemma ExpiryTimeChars(now: real)
    ensures var se := T.ExpiryTime(now);
      && '&' !in se && ' ' !in se && '=' !in se
      && |se| > 0 && !IsWhiteSpace(se[|se| - 1])
  {
  }

  /** The URL-safe signature holds none of the header's delimiters. */
  lemma UrlSafeChars(sig: string)
    requires WellFormed(sig)
    ensures '&' !in UrlSafe(sig) && ' ' !in UrlSafe(sig) && '=' !in UrlSafe(sig)
  {
    if '&' in UrlSafe(sig) { UrlSafeAlphabet(sig, '&'); }
    if ' ' in UrlSafe(sig) { UrlSafeAlphabet(sig, ' '); }
    if '=' in UrlSafe(sig) { UrlSafeAlphabet(sig, '='); }
  }

  /** A header assembled from a parsable resource, a well-formed signature
      in URL-safe form and the expiry text is read back as exactly those. */
  lemma ParseAssembled(p: Primitives, uri: string, signed: string, se: string)
    requires forall x :: p.headerUrlDecode(p.headerUrlEncode(x)) == x
    requires '&' !in uri && '=' !in uri && !Contains(uri, H.Prefix)
    requires RequestedResource.Parse(uri).Success?
    requires WellFormed(signed)
    requires '&' !in se && ' ' !in se && '=' !in se && |se| > 0 && !IsWhiteSpace(se[|se| - 1])
    ensures H.Parse(p.headerUrlEncode(T.AssembleHeader(uri, UrlSafe(signed), se)), p)
         == Success(H.Handler(RequestedResource.Parse(uri).value, se, signed))
  {
    var sig := UrlSafe(signed);
    var text := T.AssembleHeader(uri, sig, se);
    assert p.headerUrlDecode(p.headerUrlEncode(text)) == text;
    UrlSafeChars(signed);
    AssembledFields(uri, sig, se);
    ThreeFieldsRead(uri, sig, se);
    RepairUrlSafe(signed);
  }

  /** Header round trip: when the signer answers with a well-formed base64
      signature, the function app reads the built header back as the
      parsed resource, the expiry text and that very signature. */
  lemma BuildThenParse(p: Primitives, id: T.Identity, now: real, workload: string -> Option<string>)
    requires Transmissible(id)
    requires forall x :: p.headerUrlDecode(p.headerUrlEncode(x)) == x
    requires T.Signer(T.SignerInput(p, id, now), workload).Some?
    requires WellFormed(T.Signer(T.SignerInput(p, id, now), workload).value)
    requires |T.Signer(T.SignerInput(p, id, now), workload).value| > 0
    ensures T.BuildHeader(p, id, now, workload).Some?
    ensures RequestedResource.Parse(Uri(id)).Success?
    ensures H.Parse(T.BuildHeader(p, id, now, workload).value, p)
         == Success(H.Handler(RequestedResource.Parse(Uri(id)).value, T.ExpiryTime(now),
                              T.Signer(T.SignerInput(p, id, now), workload).value))
  {
    var signed := T.Signer(T.SignerInput(p, id, now), workload).value;
    var se := T.ExpiryTime(now);
    assert T.BuildHeader(p, id, now, workload)
        == Some(p.headerUrlEncode(T.AssembleHeader(Uri(id), UrlSafe(signed), se)));
    ExpiryTimeChars(now);
    T.ResourceUriParses(id.hub, id.device, id.moduleId);
    ParseAssembled(p, Uri(id), signed, se);
  }

  /** The signature the workload signer owes the module: base64 of the
      HMAC under the module key of the UTF-8 string to sign. */
  function HonestSignature(p: Primitives, key: seq<Byte>, id: T.Identity, now: real): string {
    Encode(p.hmac(key, p.utf8(T.StringToSign(p, Uri(id), T.ExpiryTime(now)))))
  }

  /** End to end: with an honest signer holding the key the function app
      decodes, the built header is accepted at every instant up to its
      expiry and rejected after it. */
  lemma BuildThenValidate(p: Primitives, id: T.Identity, now: real, later: real,
                          workload: string -> Option<string>, keyText: string, key: seq<Byte>)
    requires Transmissible(id)
    requires forall x :: p.headerUrlDecode(p.headerUrlEncode(x)) == x
    requires forall s :: |s| > 0 ==> |p.utf8(s)| > 0
    requires forall m :: |p.hmac(key, m)| > 0
    requires forall s :: ParseInteger(s).Some? ==> p.parseNumber(s) == Some(ParseInteger(s).value as real)
    requires |keyText| > 0 && p.fromBase64(keyText) == Some(key)
    requires workload(T.SignerInput(p, id, now)) == Some(HonestSignature(p, key, id, now))
    ensures T.BuildHeader(p, id, now, workload).Some?
    ensures H.Parse(T.BuildHeader(p, id, now, workload).value, p).Success?
    ensures H.IsValid(H.Parse(T.BuildHeader(p, id, now, workload).value, p).value, keyText, later, p)
         == Success(later <= T.Expiry(T.Truncate(now)) as real)
  {
    var se := T.ExpiryTime(now);
    var toSign := T.StringToSign(p, Uri(id), se);
    var signed := HonestSignature(p, key, id, now);
    assert |toSign| > 0;
    EncodeWellFormed(p.utf8(toSign));
    EncodeWellFormed(p.hmac(key, p.utf8(toSign)));
    assert T.Signer(T.SignerInput(p, id, now), workload) == Some(signed);
    BuildThenParse(p, id, now, workload);
    var res := RequestedResource.Parse(Uri(id)).value;
    RequestedResource.FormatParse(Uri(id));
    assert H.ComputedSignature(p, key, res, se) == signed;
    HonestHandlerValid(p, res, T.Expiry(T.Truncate(now)), keyText, key, later);
  }

  /** A handler carrying an integer expiry and the signature recomputed
      under the key is valid exactly up to that expiry. */
  lemma HonestHandlerValid(p: Primitives, res: RequestedResource.Resource, n: int,
                           keyText: string, key: seq<Byte>, later: real)
    requires forall s :: ParseInteger(s).Some? ==> p.parseNumber(s) == Some(ParseInteger(s).value as real)
    requires |keyText| > 0 && p.fromBase64(keyText) == Some(key)
    requires |H.ComputedSignature(p, key, res, DecimalString(n))| > 0
    ensures H.IsValid(H.Handler(res, DecimalString(n), H.ComputedSignature(p, key, res, DecimalString(n))),
                      keyText, later, p)
         == Success(later <= n as real)
  {
    ParseDecimalString(n);
  }

  /** In particular the header stays good for the next 1799 seconds. */
  lemma AcceptedWithinHalfHour(p: Primitives, id: T.Identity, now: real, later: real,
                               workload: string -> Option<string>, keyText: string, key: seq<Byte>)
    requires Transmissible(id)
    requires forall x :: p.headerUrlDecode(p.headerUrlEncode(x)) == x
    requires forall s :: |s| > 0 ==> |p.utf8(s)| > 0
    requires forall m :: |p.hmac(key, m)| > 0
    requires forall s :: ParseInteger(s).Some? ==> p.parseNumber(s) == Some(ParseInteger(s).value as real)
    requires |keyText| > 0 && p.fromBase64(keyText) == Some(key)
    requires workload(T.SignerInput(p, id, now)) == Some(HonestSignature(p, key, id, now))
    requires later <= now + 1799.0
    ensures T.BuildHeader(p, id, now, workload).Some?
    ensures H.Parse(T.BuildHeader(p, id, now, workload).value, p).Success?
    ensures H.IsValid(H.Parse(T.BuildHeader(p, id, now, workload).value, p).value, keyText, later, p)
         == Success(true)
  {
    BuildThenValidate(p, id, now, later, workload, keyText, key);
    T.ExpiryLeavesWindow(now);
  }
}
