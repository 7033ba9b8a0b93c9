/** The receiving side: the `Authorization` header is decoded once, every
    `SharedAccessSignature ` is removed, the rest is trimmed and cut into
    `key=value` fields on `&`, the fields go into a case-insensitive
    dictionary (the `sig` value repaired back to standard base64), and
    `sr`, `se` and `sig` are read out of it. Any failure on the way is the
    one exception "Invalid header received". `IsValid` then checks the
    fields, the expiry, and the signature against a recomputed HMAC. */
module AuthorizationHeaderHandler {
  import opened Wrappers
  import opened Strings
  import opened Base64
  import opened UrlSafeSignature
  import opened Platform
  import RequestedResource

  const Prefix: string := "SharedAccessSignature "

  /** The exception thrown by the constructor, whatever went wrong. */
  datatype HeaderError = InvalidHeaderReceived

  /** `Convert.FromBase64String` rejecting the key: `IsValid` does not
      catch this, so it reaches the caller. */
  datatype KeyError = KeyNotBase64

  /** A constructed handler. The resource is never null: the constructor
      throws rather than leave it unset. */
  datatype Handler = Handler(
    requestedResource: RequestedResource.Resource,
    expiry: string,
    signature: string)

  /* ---------------------------------------------------------------- */
  /* Fields                                                            */
  /* ---------------------------------------------------------------- */

  /** The `&`-separated pieces of the decoded header, empty ones included. */
  function Fields(decoded: string): seq<string> {
    Split(Trim(RemoveAll(decoded, Prefix)), '&')
  }

  /** `field.Split("=")` read at indices 0 and 1: the key is the text
      before the first `=`, the raw value the text between the first and
      the second `=` (or the end). Without any `=`, index 1 does not exist
      and the constructor fails. */
  function SplitField(field: string): (r: Result<(string, string), HeaderError>)
    ensures r.Success? <==> '=' in field
    ensures r.Success? ==>
      var key := r.value.0;
      var raw := r.value.1;
      && '=' !in key && '=' !in raw
      && |key| + 1 + |raw| <= |field|
      && field[..|key|] == key && field[|key|] == '='
      && field[|key| + 1..|key| + 1 + |raw|] == raw
      && (|key| + 1 + |raw| == |field| || field[|key| + 1 + |raw|] == '=')
  {
    var parts := Split(field, '=');
    SplitSeveral(field, '=');
    if |parts| < 2 then Failure(InvalidHeaderReceived)
    else
      SplitSecond(field, '=');
      Success((parts[0], parts[1]))
  }

  /** The value stored for a field: the `sig` field, and only a key
      spelled exactly `sig`, has its signature repaired. */
  function FieldValue(key: string, raw: string): string {
    if key == "sig" then RepairSig(raw) else raw
  }

  /** The dictionary key of a field with an `=`. */
  function KeyOf(field: string): string
    requires '=' in field
  {
    FoldCase(SplitField(field).value.0)
  }

  /** The dictionary value of a field with an `=`. */
  function ValueOf(field: string): string
    requires '=' in field
  {
    FieldValue(SplitField(field).value.0, SplitField(field).value.1)
  }

  /** The fields go into a dictionary already holding `acc` without an
      exception: every non-empty field has an `=`, and the non-empty
      fields' keys differ from each other and from those in `acc` once
      case is ignored. */
  predicate Acceptable(fields: seq<string>, acc: map<string, string>) {
    && (forall i :: 0 <= i < |fields| && fields[i] != "" ==>
          '=' in fields[i] && KeyOf(fields[i]) !in acc)
    && (forall i, j ::
          (0 <= i < j < |fields| && fields[i] != "" && fields[j] != "" && '=' in fields[i] && '=' in fields[j])
          ==> KeyOf(fields[i]) != KeyOf(fields[j]))
  }

  /** The loop over the fields: empty ones are skipped, the others split
      and added, and `Dictionary.Add` throws on a key already present. */
  function Collect(fields: seq<string>, acc: map<string, string>): (r: Result<map<string, string>, HeaderError>)
    ensures r.Success? <==> Acceptable(fields, acc)
    decreases |fields|
  {
    if |fields| == 0 then Success(acc)
    else if fields[0] == "" then
      AcceptableSkip(fields, acc);
      Collect(fields[1..], acc)
    else
      match SplitField(fields[0])
      case Failure(e) => Failure(e)
      case Success(kv) =>
        var key := FoldCase(kv.0);
        if key in acc then Failure(InvalidHeaderReceived)
        else
          AcceptableCons(fields, acc);
          Collect(fields[1..], acc[key := FieldValue(kv.0, kv.1)])
  }

  /** What the dictionary holds afterwards: what it held before, and each
      non-empty field's value under that field's key. */
  lemma {:induction false} CollectStores(fields: seq<string>, acc: map<string, string>)
    requires Collect(fields, acc).Success?
    ensures var m := Collect(fields, acc).value;
      && (forall k :: k in acc ==> k in m && m[k] == acc[k])
      && (forall i :: 0 <= i < |fields| && fields[i] != "" ==>
            '=' in fields[i] && KeyOf(fields[i]) in m && m[KeyOf(fields[i])] == ValueOf(fields[i]))
    decreases |fields|
  {
    if |fields| > 0 {
      CollectShift(fields);
      if fields[0] == "" {
        CollectStores(fields[1..], acc);
      } else {
        var k0 := KeyOf(fields[0]);
        CollectStores(fields[1..], acc[k0 := ValueOf(fields[0])]);
      }
    }
  }

  /** Nothing else goes into the dictionary. */
  lemma {:induction false} CollectOnly(fields: seq<string>, acc: map<string, string>, k: string)
    requires Collect(fields, acc).Success? && k in Collect(fields, acc).value && k !in acc
    ensures exists i :: 0 <= i < |fields| && fields[i] != "" && '=' in fields[i] && KeyOf(fields[i]) == k
    decreases |fields|
  {
    CollectShift(fields);
    if fields[0] == "" {
      CollectOnly(fields[1..], acc, k);
      var i :| 0 <= i < |fields[1..]| && fields[1..][i] != "" && '=' in fields[1..][i] && KeyOf(fields[1..][i]) == k;
      assert fields[i + 1] == fields[1..][i];
    } else {
      var k0 := KeyOf(fields[0]);
      if k != k0 {
        CollectOnly(fields[1..], acc[k0 := ValueOf(fields[0])], k);
        var i :| 0 <= i < |fields[1..]| && fields[1..][i] != "" && '=' in fields[1..][i] && KeyOf(fields[1..][i]) == k;
        assert fields[i + 1] == fields[1..][i];
      }
    }
  }

  /** An empty first field is skipped. */
  lemma AcceptableSkip(fields: seq<string>, acc: map<string, string>)
    requires |fields| > 0 && fields[0] == ""
    ensures Acceptable(fields, acc) <==> Acceptable(fields[1..], acc)
  {
    var tail := fields[1..];
    CollectShift(fields);
    if Acceptable(tail, acc) {
      forall i | 0 <= i < |fields| && fields[i] != "" ensures '=' in fields[i] && KeyOf(fields[i]) !in acc {
        assert fields[i] == tail[i - 1];
      }
      forall i, j | 0 <= i < j < |fields| && fields[i] != "" && fields[j] != "" && '=' in fields[i] && '=' in fields[j]
        ensures KeyOf(fields[i]) != KeyOf(fields[j])
      {
        assert fields[i] == tail[i - 1] && fields[j] == tail[j - 1];
      }
    }
  }

  /** Indices of the tail are the indices of the whole shifted by one. */
  lemma CollectShift(fields: seq<string>)
    requires |fields| > 0
    ensures forall i :: 0 <= i < |fields[1..]| ==> fields[1..][i] == fields[i + 1]
  {
  }

  /** Acceptability of a non-empty first field followed by the rest. */
  lemma AcceptableCons(fields: seq<string>, acc: map<string, string>)
    requires |fields| > 0 && fields[0] != "" && '=' in fields[0]
    ensures Acceptable(fields, acc)
        <==> KeyOf(fields[0]) !in acc
             && Acceptable(fields[1..], acc[KeyOf(fields[0]) := ValueOf(fields[0])])
  {
    var k0 := KeyOf(fields[0]);
    var acc' := acc[k0 := ValueOf(fields[0])];
    var tail := fields[1..];
    if Acceptable(fields, acc) {
      forall i | 0 <= i < |tail| && tail[i] != "" ensures '=' in tail[i] && KeyOf(tail[i]) !in acc' {
        assert tail[i] == fields[i + 1];
      }
      forall i, j | 0 <= i < j < |tail| && tail[i] != "" && tail[j] != "" && '=' in tail[i] && '=' in tail[j]
        ensures KeyOf(tail[i]) != KeyOf(tail[j])
      {
        assert tail[i] == fields[i + 1] && tail[j] == fields[j + 1];
      }
    }
    if k0 !in acc && Acceptable(tail, acc') {
      forall i | 0 <= i < |fields| && fields[i] != "" ensures '=' in fields[i] && KeyOf(fields[i]) !in acc {
        if i > 0 { assert fields[i] == tail[i - 1]; }
      }
      forall i, j | 0 <= i < j < |fields| && fields[i] != "" && fields[j] != "" && '=' in fields[i] && '=' in fields[j]
        ensures KeyOf(fields[i]) != KeyOf(fields[j])
      {
        assert fields[j] == tail[j - 1];
        if i > 0 { assert fields[i] == tail[i - 1]; }
      }
    }
  }

  /** `parsedFields[name]`, which throws when the key is absent. */
  function Lookup(m: map<string, string>, name: string): (r: Option<string>)
    ensures r.Some? <==> FoldCase(name) in m
  {
    if FoldCase(name) in m then Some(m[FoldCase(name)]) else None
  }

  /** The constructor after the decoding step, from the fields on. The
      order of the lookups does not matter: every failure is the same
      exception. */
  function FromFields(fields: seq<string>): (r: Result<Handler, HeaderError>)
  {
    match Collect(fields, map[])
    case Failure(_) => Failure(InvalidHeaderReceived)
    case Success(m) =>
      var sr := Lookup(m, "sr");
      var se := Lookup(m, "se");
      var sig := Lookup(m, "sig");
      if sr.Some? && se.Some? && sig.Some? && RequestedResource.Parse(sr.value).Success? then
        Success(Handler(RequestedResource.Parse(sr.value).value, se.value, sig.value))
      else Failure(InvalidHeaderReceived)
  }

  /** `new AuthorizationHeaderHandler(receivedHeader)`: a handler only for
      fields the dictionary accepts that include `sr`, `se` and `sig`, in
      any case; it holds the resource parsed from the `sr` value and the
      `se` and `sig` values. */
  function Parse(receivedHeader: string, p: Primitives): (r: Result<Handler, HeaderError>)
    ensures var fields := Fields(p.headerUrlDecode(receivedHeader));
      r.Success? ==>
        && Acceptable(fields, map[])
        && Present(fields, "sr") && Present(fields, "se") && Present(fields, "sig")
    ensures var fields := Fields(p.headerUrlDecode(receivedHeader));
      r.Success? ==>
        forall i :: 0 <= i < |fields| && fields[i] != "" && '=' in fields[i] ==>
          && (KeyOf(fields[i]) == FoldCase("sr") ==>
                RequestedResource.Parse(ValueOf(fields[i])) == Success(r.value.requestedResource))
          && (KeyOf(fields[i]) == FoldCase("se") ==> r.value.expiry == ValueOf(fields[i]))
          && (KeyOf(fields[i]) == FoldCase("sig") ==> r.value.signature == ValueOf(fields[i]))
  {
    var fields := Fields(p.headerUrlDecode(receivedHeader));
    var r := FromFields(fields);
    if r.Failure? then r
    else
      FromFieldsHolds(fields);
      r
  }

  /* ---------------------------------------------------------------- */
  /* IsValid                                                           */
  /* ---------------------------------------------------------------- */

  /** The signature the verifier expects: base64 of the HMAC under the key
      of the UTF-8 of the URL-encoded resource, a newline, and the raw
      expiry text. */
  function ComputedSignature(p: Primitives, key: seq<Byte>, res: RequestedResource.Resource, expiry: string): (s: string)
    ensures WellFormed(s)
  {
    var stringToSign := p.signingUrlEncode(RequestedResource.Format(res)) + "\n" + expiry;
    var digest := p.hmac(key, p.utf8(stringToSign));
    EncodeWellFormed(digest);
    Encode(digest)
  }

  /** `IsValid(key, log)` at the instant `now` (seconds since the epoch).
      Incomplete fields, an unreadable expiry and an expiry before `now`
      give false; a key that is not base64 is an exception; otherwise the
      answer is whether the signature is the recomputed one. */
  function IsValid(h: Handler, key: string, now: real, p: Primitives): (r: Result<bool, KeyError>)
    ensures (|h.expiry| == 0 || |h.signature| == 0 || |key| == 0) ==> r == Success(false)
    ensures p.parseNumber(h.expiry).None? ==> r == Success(false)
    ensures p.parseNumber(h.expiry).Some? && p.parseNumber(h.expiry).value < now ==> r == Success(false)
    ensures r.Failure? ==> p.fromBase64(key).None?
    ensures r == Success(true) ==>
      p.fromBase64(key).Some? && h.signature == ComputedSignature(p, p.fromBase64(key).value, h.requestedResource, h.expiry)
  {
    if |h.expiry| == 0 || |h.signature| == 0 || |key| == 0 then Success(false)
    else
      match p.parseNumber(h.expiry)
      case None => Success(false)
      case Some(e) =>
        if e < now then Success(false)
        else
          match p.fromBase64(key)
          case None => Failure(KeyNotBase64)
          case Some(k) => Success(h.signature == ComputedSignature(p, k, h.requestedResource, h.expiry))
  }

  /* ---------------------------------------------------------------- */
  /* Properties of the constructor                                     */
  /* ---------------------------------------------------------------- */

  /** A field written `key=value` splits into that key and value. */
  lemma SplitFieldOf(key: string, value: string)
    requires '=' !in key && '=' !in value
    ensures SplitField(key + "=" + value) == Success((key, value))
  {
    var f := key + "=" + value;
    assert f == key + ['='] + value;
    SplitFirst(key, '=', value);
    SplitSeparatorFree(value, '=');
  }

  /** Only a key spelled exactly `sig` has its value repaired, although
      every spelling of it is filed under the same dictionary key. */
  lemma SigRepairIsCaseSensitive(key: string, value: string)
    requires '=' !in key && '=' !in value
    ensures '=' in key + "=" + value
    ensures KeyOf(key + "=" + value) == FoldCase(key)
    ensures ValueOf(key + "=" + value) == (if key == "sig" then RepairSig(value) else value)
  {
    SplitFieldOf(key, value);
    assert (key + "=" + value)[|key|] == '=';
  }

  /** A non-empty field without `=` makes the constructor fail. */
  lemma FieldWithoutEqualsFails(fields: seq<string>, i: nat)
    requires i < |fields| && fields[i] != "" && '=' !in fields[i]
    ensures FromFields(fields) == Failure(InvalidHeaderReceived)
  {
    assert !Acceptable(fields, map[]);
    RejectedFieldsFail(fields);
  }

  /** Two non-empty fields with the same key, ignoring case, make the
      constructor fail. */
  lemma DuplicateKeyFails(fields: seq<string>, i: nat, j: nat)
    requires i < j < |fields| && fields[i] != "" && fields[j] != ""
    requires '=' in fields[i] && '=' in fields[j] && KeyOf(fields[i]) == KeyOf(fields[j])
    ensures FromFields(fields) == Failure(InvalidHeaderReceived)
  {
    assert !Acceptable(fields, map[]);
    RejectedFieldsFail(fields);
  }

  /** Fields the dictionary refuses make the constructor fail. */
  lemma RejectedFieldsFail(fields: seq<string>)
    requires !Acceptable(fields, map[])
    ensures FromFields(fields) == Failure(InvalidHeaderReceived)
  {
    assert Collect(fields, map[]).Failure?;
  }

  /** The field called `name`, in any case, is present. */
  predicate Present(fields: seq<string>, name: string) {
    exists i :: 0 <= i < |fields| && fields[i] != "" && '=' in fields[i] && KeyOf(fields[i]) == FoldCase(name)
  }

  /** Lookup of a name that no field carries finds nothing. */
  lemma AbsentNotCollected(fields: seq<string>, name: string)
    requires Collect(fields, map[]).Success? && !Present(fields, name)
    ensures Lookup(Collect(fields, map[]).value, name).None?
  {
    if FoldCase(name) in Collect(fields, map[]).value {
      CollectOnly(fields, map[], FoldCase(name));
    }
  }

  /** `parsedFields[name]` on the filled dictionary finds a value exactly
      when some non-empty field's key equals `name` ignoring case, and the
      value is that field's. */
  lemma LookupCollected(fields: seq<string>, name: string)
    requires Collect(fields, map[]).Success?
    ensures Lookup(Collect(fields, map[]).value, name).Some? <==> Present(fields, name)
    ensures forall i ::
      0 <= i < |fields| && fields[i] != "" && '=' in fields[i] && KeyOf(fields[i]) == FoldCase(name) ==>
        Lookup(Collect(fields, map[]).value, name) == Some(ValueOf(fields[i]))
  {
    CollectStores(fields, map[]);
    if FoldCase(name) in Collect(fields, map[]).value {
      CollectOnly(fields, map[], FoldCase(name));
    }
  }

  /** What a successful construction guarantees about the fields. */
  lemma FromFieldsHolds(fields: seq<string>)
    requires FromFields(fields).Success?
    ensures Acceptable(fields, map[])
    ensures Present(fields, "sr") && Present(fields, "se") && Present(fields, "sig")
    ensures forall i :: 0 <= i < |fields| && fields[i] != "" && '=' in fields[i] ==>
      && (KeyOf(fields[i]) == FoldCase("sr") ==>
            RequestedResource.Parse(ValueOf(fields[i])) == Success(FromFields(fields).value.requestedResource))
      && (KeyOf(fields[i]) == FoldCase("se") ==> FromFields(fields).value.expiry == ValueOf(fields[i]))
      && (KeyOf(fields[i]) == FoldCase("sig") ==> FromFields(fields).value.signature == ValueOf(fields[i]))
  {
    LookupCollected(fields, "sr");
    LookupCollected(fields, "se");
    LookupCollected(fields, "sig");
    forall i | 0 <= i < |fields| && fields[i] != "" && '=' in fields[i]
      ensures && (KeyOf(fields[i]) == FoldCase("sr") ==>
                    RequestedResource.Parse(ValueOf(fields[i])) == Success(FromFields(fields).value.requestedResource))
              && (KeyOf(fields[i]) == FoldCase("se") ==> FromFields(fields).value.expiry == ValueOf(fields[i]))
              && (KeyOf(fields[i]) == FoldCase("sig") ==> FromFields(fields).value.signature == ValueOf(fields[i]))
    {
      FromFieldsField(fields, i);
    }
  }

  /** One field of a successful construction. */
  lemma FromFieldsField(fields: seq<string>, i: nat)
    requires FromFields(fields).Success?
    requires i < |fields| && fields[i] != "" && '=' in fields[i]
    ensures KeyOf(fields[i]) == FoldCase("sr") ==>
      RequestedResource.Parse(ValueOf(fields[i])) == Success(FromFields(fields).value.requestedResource)
    ensures KeyOf(fields[i]) == FoldCase("se") ==> FromFields(fields).value.expiry == ValueOf(fields[i])
    ensures KeyOf(fields[i]) == FoldCase("sig") ==> FromFields(fields).value.signature == ValueOf(fields[i])
  {
    var m := Collect(fields, map[]).value;
    CollectStores(fields, map[]);
    assert KeyOf(fields[i]) in m && m[KeyOf(fields[i])] == ValueOf(fields[i]);
  }

  /** Without an `sr`, an `se` or a `sig` field the constructor fails. */
  lemma MissingFieldFails(fields: seq<string>, name: string)
    requires name == "sr" || name == "se" || name == "sig"
    requires !Present(fields, name)
    ensures FromFields(fields) == Failure(InvalidHeaderReceived)
  {
    if Collect(fields, map[]).Success? {
      AbsentNotCollected(fields, name);
    }
  }

  /** The constructor succeeds exactly when the fields go into the
      dictionary, all three required ones are present, and `sr` parses as
      a resource; the handler then holds the values those fields carry. */
  lemma FromFieldsReads(fields: seq<string>, i: nat, j: nat, l: nat)
    requires i < |fields| && j < |fields| && l < |fields|
    requires fields[i] != "" && '=' in fields[i] && KeyOf(fields[i]) == FoldCase("sr")
    requires fields[j] != "" && '=' in fields[j] && KeyOf(fields[j]) == FoldCase("se")
    requires fields[l] != "" && '=' in fields[l] && KeyOf(fields[l]) == FoldCase("sig")
    ensures FromFields(fields).Success?
        <==> Acceptable(fields, map[]) && RequestedResource.Parse(ValueOf(fields[i])).Success?
    ensures FromFields(fields).Success? ==>
      FromFields(fields).value
        == Handler(RequestedResource.Parse(ValueOf(fields[i])).value, ValueOf(fields[j]), ValueOf(fields[l]))
  {
    if Collect(fields, map[]).Success? {
      CollectStores(fields, map[]);
    }
  }

  /** A field with a key of its own other than `sr`, `se` and `sig`
      changes nothing. */
  lemma UnknownKeyIgnored(fields: seq<string>, extra: string)
    requires '=' in extra
    requires KeyOf(extra) != FoldCase("sr") && KeyOf(extra) != FoldCase("se") && KeyOf(extra) != FoldCase("sig")
    requires forall i :: 0 <= i < |fields| && fields[i] != "" && '=' in fields[i] ==> KeyOf(fields[i]) != KeyOf(extra)
    ensures FromFields(fields + [extra]) == FromFields(fields)
  {
    var all := fields + [extra];
    assert forall i :: 0 <= i < |fields| ==> all[i] == fields[i];
    assert all[|fields|] == extra;
    AcceptableAppend(fields, extra);
    if Acceptable(fields, map[]) {
      SameLookup(fields, extra, "sr");
      SameLookup(fields, extra, "se");
      SameLookup(fields, extra, "sig");
    }
  }

  /** Appending a field with a fresh key keeps acceptability. */
  lemma AcceptableAppend(fields: seq<string>, extra: string)
    requires '=' in extra
    requires forall i :: 0 <= i < |fields| && fields[i] != "" && '=' in fields[i] ==> KeyOf(fields[i]) != KeyOf(extra)
    ensures Acceptable(fields + [extra], map[]) <==> Acceptable(fields, map[])
  {
    var all := fields + [extra];
    assert forall i :: 0 <= i < |fields| ==> all[i] == fields[i];
    assert all[|fields|] == extra;
  }

  /** Helper for UnknownKeyIgnored: one required name reads the same. */
  lemma SameLookup(fields: seq<string>, extra: string, name: string)
    requires '=' in extra && KeyOf(extra) != FoldCase(name)
    requires Acceptable(fields + [extra], map[]) && Acceptable(fields, map[])
    ensures Lookup(Collect(fields + [extra], map[]).value, name) == Lookup(Collect(fields, map[]).value, name)
  {
    var all := fields + [extra];
    var m := Collect(fields, map[]).value;
    var m' := Collect(all, map[]).value;
    var k := FoldCase(name);
    assert forall i :: 0 <= i < |fields| ==> all[i] == fields[i];
    CollectStores(fields, map[]);
    CollectStores(all, map[]);
    if k in m {
      CollectOnly(fields, map[], k);
    }
    if k in m' {
      CollectOnly(all, map[], k);
      var i :| 0 <= i < |all| && all[i] != "" && '=' in all[i] && KeyOf(all[i]) == k;
      assert i < |fields|;
    }
  }

  /* ---------------------------------------------------------------- */
  /* Properties of IsValid                                             */
  /* ---------------------------------------------------------------- */

  /** IsValid holds exactly when every field and the key are non-empty,
      the expiry reads as a number not before `now`, the key decodes, and
      the signature is the recomputed one. */
  lemma IsValidExactly(h: Handler, key: string, now: real, p: Primitives)
    ensures IsValid(h, key, now, p) == Success(true)
        <==> && |h.expiry| > 0 && |h.signature| > 0 && |key| > 0
             && p.parseNumber(h.expiry).Some? && now <= p.parseNumber(h.expiry).value
             && p.fromBase64(key).Some?
             && h.signature == ComputedSignature(p, p.fromBase64(key).value, h.requestedResource, h.expiry)
  {
  }

  /** A token is still good at the very second it expires. */
  lemma ExpiryInclusive(h: Handler, key: string, p: Primitives)
    requires |h.expiry| > 0 && |h.signature| > 0 && |key| > 0
    requires p.parseNumber(h.expiry).Some? && p.fromBase64(key).Some?
    requires h.signature == ComputedSignature(p, p.fromBase64(key).value, h.requestedResource, h.expiry)
    ensures IsValid(h, key, p.parseNumber(h.expiry).value, p) == Success(true)
  {
  }

  /** A token valid now was valid at every earlier instant. */
  lemma ValidEarlier(h: Handler, key: string, now: real, earlier: real, p: Primitives)
    requires IsValid(h, key, now, p) == Success(true) && earlier <= now
    ensures IsValid(h, key, earlier, p) == Success(true)
  {
  }

  /** A token valid now is rejected after its expiry. */
  lemma InvalidAfterExpiry(h: Handler, key: string, now: real, later: real, p: Primitives)
    requires IsValid(h, key, now, p) == Success(true)
    requires p.parseNumber(h.expiry).value < later
    ensures IsValid(h, key, later, p) == Success(false)
  {
  }

  /** Changing the signature of a valid handler makes it invalid. */
  lemma TamperedSignatureRejected(h: Handler, key: string, now: real, p: Primitives, forged: string)
    requires IsValid(h, key, now, p) == Success(true) && forged != h.signature
    ensures IsValid(h.(signature := forged), key, now, p) == Success(false)
  {
  }

  /** Two different messages whose base64 HMACs under `key` are equal. */
  predicate HmacCollision(p: Primitives, key: seq<Byte>, m1: string, m2: string) {
    m1 != m2 && Encode(p.hmac(key, p.utf8(m1))) == Encode(p.hmac(key, p.utf8(m2)))
  }

  /** Two different texts that `HttpUtility.UrlEncode` writes the same. */
  predicate UrlEncodeCollision(p: Primitives, a: string, b: string) {
    a != b && p.signingUrlEncode(a) == p.signingUrlEncode(b)
  }

  /** Changing the expiry of a valid handler makes it invalid, unless the
      two signed messages form an HMAC collision under the key: a forger
      who moves the expiry has found one. */
  lemma TamperedExpiryRejected(h: Handler, key: string, now: real, p: Primitives, forged: string)
    requires IsValid(h, key, now, p) == Success(true) && forged != h.expiry
    ensures var prefix := p.signingUrlEncode(RequestedResource.Format(h.requestedResource)) + "\n";
      || IsValid(h.(expiry := forged), key, now, p) == Success(false)
      || HmacCollision(p, p.fromBase64(key).value, prefix + forged, prefix + h.expiry)
  {
    var k := p.fromBase64(key).value;
    var prefix := p.signingUrlEncode(RequestedResource.Format(h.requestedResource)) + "\n";
    if IsValid(h.(expiry := forged), key, now, p) == Success(true) {
      assert Encode(p.hmac(k, p.utf8(prefix + forged))) == Encode(p.hmac(k, p.utf8(prefix + h.expiry)));
      if prefix + forged == prefix + h.expiry {
        CancelPrefix(prefix, forged, h.expiry);
      }
    }
  }

  /** Replacing the resource of a valid handler, parsed from `sr`, by the
      parse of any other `sr` text makes it invalid, unless the forger has
      found a collision of `HttpUtility.UrlEncode` or of the HMAC under the
      key. */
  lemma TamperedResourceRejected(h: Handler, key: string, now: real, p: Primitives, sr: string, forged: string)
    requires IsValid(h, key, now, p) == Success(true)
    requires RequestedResource.Parse(sr) == Success(h.requestedResource)
    requires RequestedResource.Parse(forged).Success? && forged != sr
    ensures var suffix := "\n" + h.expiry;
      || IsValid(h.(requestedResource := RequestedResource.Parse(forged).value), key, now, p) == Success(false)
      || UrlEncodeCollision(p, forged, sr)
      || HmacCollision(p, p.fromBase64(key).value, p.signingUrlEncode(forged) + suffix, p.signingUrlEncode(sr) + suffix)
  {
    var k := p.fromBase64(key).value;
    var res := RequestedResource.Parse(forged).value;
    var suffix := "\n" + h.expiry;
    RequestedResource.FormatParse(forged);
    RequestedResource.FormatParse(sr);
    if IsValid(h.(requestedResource := res), key, now, p) == Success(true) {
      var a := p.signingUrlEncode(forged);
      var b := p.signingUrlEncode(sr);
      assert ComputedSignature(p, k, res, h.expiry) == ComputedSignature(p, k, h.requestedResource, h.expiry);
      SignedMessage(p, k, res, h.expiry, forged);
      SignedMessage(p, k, h.requestedResource, h.expiry, sr);
      if a + suffix == b + suffix {
        CancelSuffix(a, b, suffix);
      }
    }
  }

  /** Helper: the recomputed signature of a resource formatted as `sr`. */
  lemma SignedMessage(p: Primitives, k: seq<Byte>, res: RequestedResource.Resource, expiry: string, sr: string)
    requires RequestedResource.Format(res) == sr
    ensures ComputedSignature(p, k, res, expiry) == Encode(p.hmac(k, p.utf8(p.signingUrlEncode(sr) + ("\n" + expiry))))
  {
    assert p.signingUrlEncode(sr) + "\n" + expiry == p.signingUrlEncode(sr) + ("\n" + expiry);
  }

  /** Helper: a common prefix cancels. */
  lemma CancelPrefix(a: string, b: string, c: string)
    requires a + b == a + c
    ensures b == c
  {
    assert b == (a + b)[|a|..];
    assert c == (a + c)[|a|..];
  }

  /** Helper: a common suffix cancels. */
  lemma CancelSuffix(a: string, b: string, c: string)
    requires a + c == b + c
    ensures a == b
  {
    assert a == (a + c)[..|a|];
    assert b == (b + c)[..|b|];
  }
}
