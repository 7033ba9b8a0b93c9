/** The sending side: the pure steps of the edge module's update handler
    that build a shared-access-signature header. The expiry is thirty
    minutes after the current second, the resource names this module's
    `update` method, the string to sign is the URL-encoded resource, a
    newline and the expiry, the signature comes back from the workload
    signer, and the header carries it in URL-safe form. */
module TokenBuilder {
  import opened Wrappers
  import opened Base64
  import opened Decimal
  import opened UrlSafeSignature
  import opened Platform
  import RequestedResource

  const MethodName: string := "update"
  const ThirtyMinutesInSeconds: int := 60 * 30

  /* ---------------------------------------------------------------- */
  /* Expiry                                                            */
  /* ---------------------------------------------------------------- */

  const MinInt32: int := -0x8000_0000
  const MaxInt32: int := 0x7fff_ffff

  predicate IsInt32(x: int) {
    MinInt32 <= x <= MaxInt32
  }

  /** The `(int)` cast of a double: truncation toward zero. */
  function Truncate(x: real): (n: int)
    ensures 0.0 <= x ==> n as real <= x < n as real + 1.0
    ensures x < 0.0 ==> n as real - 1.0 < x <= n as real
  {
    if 0.0 <= x then x.Floor else -((-x).Floor)
  }

  /** Two's-complement 32-bit wrap-around of an unbounded integer. */
  function Wrap32(x: int): (r: int)
    ensures IsInt32(r)
    ensures (r - x) % 0x1_0000_0000 == 0
    ensures IsInt32(x) ==> r == x
  {
    (x - MinInt32) % 0x1_0000_0000 + MinInt32
  }

  /** `sinceEpoch + thirtyMinutesInSeconds` as the source computes it: a
      sum of two `int`s, which wraps around past `int.MaxValue`. */
  function ExpiryAsWritten(sinceEpoch: int): (e: int)
    requires IsInt32(sinceEpoch)
    ensures IsInt32(e)
  {
    Wrap32(sinceEpoch + ThirtyMinutesInSeconds)
  }

  /** The expiry the token is meant to carry: thirty minutes after
      `sinceEpoch`, without wrap-around. */
  function Expiry(sinceEpoch: int): (e: int)
    ensures e > sinceEpoch
  {
    sinceEpoch + ThirtyMinutesInSeconds
  }

  /** The two agree exactly while the sum fits in an `int`. */
  lemma ExpiryAsWrittenAgrees(sinceEpoch: int)
    requires IsInt32(sinceEpoch)
    ensures ExpiryAsWritten(sinceEpoch) == Expiry(sinceEpoch) <==> sinceEpoch + ThirtyMinutesInSeconds <= MaxInt32
  {
  }

  /** In the last half hour before `int.MaxValue` seconds (January 2038)
      the expiry as written is negative: a token that expired in 1901. */
  lemma ExpiryAsWrittenWraps()
    ensures ExpiryAsWritten(2147483000) == -2147482496
    ensures ExpiryAsWritten(2147483000) < 2147483000
  {
  }

  /** The corrected expiry leaves the verifier at least 1799 seconds,
      whatever fraction of a second `now` carries. */
  lemma ExpiryLeavesWindow(now: real)
    ensures now + 1799.0 < Expiry(Truncate(now)) as real
  {
  }

  /* ---------------------------------------------------------------- */
  /* Resource and string to sign                                       */
  /* ---------------------------------------------------------------- */

  /** The interpolated resource string for this module's `update` method. */
  function ResourceUri(hub: string, device: string, moduleId: string): string {
    hub + "/devices/" + device + "/modules/" + moduleId + "/methods/" + MethodName
  }

  /** The resource built here has the four-segment shape the verifier
      parses, and parsing it returns its parts when they hold no `/`. */
  lemma ResourceUriParses(hub: string, device: string, moduleId: string)
    requires |hub| > 0 && |device| > 0 && |moduleId| > 0
    ensures RequestedResource.Parse(ResourceUri(hub, device, moduleId)).Success?
    ensures RequestedResource.Format(RequestedResource.Parse(ResourceUri(hub, device, moduleId)).value)
         == ResourceUri(hub, device, moduleId)
    ensures '/' !in hub && '/' !in device && '/' !in moduleId ==>
      RequestedResource.Parse(ResourceUri(hub, device, moduleId))
        == Success(RequestedResource.Resource(hub, RequestedResource.HubName(hub), device, moduleId, MethodName))
  {
    var uri := ResourceUri(hub, device, moduleId);
    assert uri == RequestedResource.ResourceString(hub, device, moduleId, MethodName);
    assert RequestedResource.Spells(uri, hub, device, moduleId, MethodName);
    RequestedResource.ParseSucceedsIff(uri);
    RequestedResource.FormatParse(uri);
    if '/' !in hub && '/' !in device && '/' !in moduleId {
      assert '/' !in MethodName;
      RequestedResource.ParseFormat(hub, device, moduleId, MethodName);
    }
  }

  /** `UrlEncode(resourceUri) + "\n" + expiryTime`. */
  function StringToSign(p: Primitives, resourceUri: string, expiryTime: string): string {
    p.signingUrlEncode(resourceUri) + "\n" + expiryTime
  }

  /* ---------------------------------------------------------------- */
  /* Signing and the header                                            */
  /* ---------------------------------------------------------------- */

  /** `Signer(base64String)`: no request for empty input; otherwise the
      workload API's answer, which may be null. */
  function Signer(data: string, workload: string -> Option<string>): (r: Option<string>)
    ensures |data| == 0 ==> r.None?
    ensures |data| > 0 ==> r == workload(data)
  {
    if |data| == 0 then None else workload(data)
  }

  /** The header text before its URL-encoding. */
  function AssembleHeader(sr: string, sig: string, se: string): string {
    "SharedAccessSignature sr=" + sr + "&sig=" + sig + "&se=" + se
  }

  /** The identity the module signs with, read from its environment. */
  datatype Identity = Identity(hub: string, device: string, moduleId: string)

  /** The steps from the clock reading to the URL-encoded header; no
      header when the signer answers null or empty. */
  function BuildHeader(p: Primitives, id: Identity, now: real, workload: string -> Option<string>): (r: Option<string>)
    ensures r.Some? ==> Signer(SignerInput(p, id, now), workload).Some?
    ensures r.Some? ==>
      var signed := Signer(SignerInput(p, id, now), workload).value;
      && |signed| > 0
      && r.value == p.headerUrlEncode(AssembleHeader(ResourceUri(id.hub, id.device, id.moduleId),
                                                     UrlSafe(signed), ExpiryTime(now)))
  {
    match Signer(SignerInput(p, id, now), workload)
    case None => None
    case Some(signed) =>
      if |signed| == 0 then None
      else Some(p.headerUrlEncode(AssembleHeader(ResourceUri(id.hub, id.device, id.moduleId),
                                                 UrlSafe(signed), ExpiryTime(now))))
  }

  /** `Convert.ToString(sinceEpoch + thirtyMinutesInSeconds)`, with the
      corrected expiry. */
  function ExpiryTime(now: real): string {
    DecimalString(Expiry(Truncate(now)))
  }

  /** `Convert.ToBase64String(Encoding.UTF8.GetBytes(toSign))`. */
  function SignerInput(p: Primitives, id: Identity, now: real): string {
    Encode(p.utf8(StringToSign(p, ResourceUri(id.hub, id.device, id.moduleId), ExpiryTime(now))))
  }

  /** No header is built unless the signer returns a non-empty answer. */
  lemma NoHeaderWithoutSignature(p: Primitives, id: Identity, now: real, workload: string -> Option<string>)
    ensures BuildHeader(p, id, now, workload).None?
        <==> (Signer(SignerInput(p, id, now), workload).None?
              || Signer(SignerInput(p, id, now), workload) == Some(""))
  {
  }
}
