# Shared-access-signature authentication between an edge module and a function app

This project models the token scheme behind an IoT Edge module that asks a
function app to act for it. There are two sides.

- **The module (sending side)** computes an expiry thirty minutes after the
  current second. It builds the resource
  `{hub}/devices/{device}/modules/{module}/methods/update` and signs
  `UrlEncode(resource) + "\n" + expiry` through the workload API. It then
  sends `SharedAccessSignature sr=…&sig=…&se=…` with the signature in
  URL-safe base64, URL-encoded as a whole.
- **The function app (receiving side)** decodes the header and drops every
  `SharedAccessSignature `. It trims the rest, cuts it into `key=value`
  fields on `&`, and fills a case-insensitive dictionary. The `sig` value is
  repaired back to padded standard base64. It parses `sr` as a
  `RequestedResource` and keeps `se` and `sig`. `IsValid` then checks that
  the fields are present, that the expiry has not passed, and that the
  signature equals the recomputed HMAC. A helper extracts the resource-group
  name from an Azure resource id with a regular expression.

The modules follow the program's structure:

| module | file | models |
|---|---|---|
| `Strings` | strings.dfy | .NET `Replace`, `Trim`/`TrimEnd`, `Split`, and the ordinal case-insensitive key comparison |
| `GreedyRegex` | regex.dfy | `Regex.Match` on patterns `lead([\d\D]+)sep…([\d\D]+)`: the leftmost start, then groups taken greedily from left to right, as backtracking tries them |
| `RequestedResource` | resource.dfy | `RequestedResource`: parsing with its regex, `ToString()`, and the hub name |
| `Base64` | base64.dfy | `Convert.ToBase64String` (section 4 of RFC 4648) and well-formed base64 text |
| `UrlSafeSignature` | signature.dfy | the module's URL-safe rewriting of the signature, and the function app's repair of it |
| `Decimal` | decimal.dfy | `Convert.ToString(int)`, and reading such text back as an integer |
| `Platform` | platform.dfy | the library primitives that stay abstract (see "Left out") |
| `AuthorizationHeaderHandler` | header.dfy | the constructor and `IsValid` |
| `TokenBuilder` | token.dfy | the module's update handler, from the clock reading to the encoded header, plus `Signer`'s empty-input guard |
| `ResourceId` | resourceid.dfy | `Helpers.GetResourceGroupName` |
| `Protocol` | protocol.dfy | both sides together: a built header is read back and accepted until it expires |

Every exception becomes a `Failure` value of a `Result`:

- `FormatException` from either regex;
- the one `Exception("Invalid header received")` that the constructor turns
  every failure into;
- the `FormatException` of `Convert.FromBase64String(key)`, which `IsValid`
  lets escape.

Time is a parameter. `now` is an exact real number of seconds since the
epoch, for both `IsValid` and the module's clock.

The resource-id pattern writes `Microsoft.Devices` with an unescaped `.`, so
that position matches any character except a newline, not only a dot.
`ResourceId.Providers` models it that way.

Strings are sequences of Unicode characters, but a .NET string is a sequence
of UTF-16 code units, and a character above the Basic Multilingual Plane
takes two of them. This matters in two places, and both are modelled in code
units:

- `String.Length` in the padding of the `sig` value is `Strings.Utf16Length`.
- The regex `.` (`GreedyRegex.Wildcard`) takes one code unit. It is always
  followed by an exact character, so it can never take half of a
  two-unit character. It therefore matches exactly the Basic Multilingual
  Plane characters other than a newline. Every exact character in the
  patterns is in that plane, so groups start and end on character boundaries
  as they do in .NET.

## Model

| member | source | states |
|---|---|---|
| `RequestedResource.Parse` | functionSolution/functionSolution/RequestedResource.cs:16-31 | on success the four captured fields are non-empty and spell the input as `hub/devices/device/modules/module/methods/method`, and the hub name is `hub.Split('.')[0]` |
| `RequestedResource.ParseSucceedsIff` | functionSolution/functionSolution/RequestedResource.cs:18-30 | parsing succeeds exactly when some choice of four non-empty fields spells the input; otherwise it throws `FormatException` |
| `RequestedResource.ParseIsGreedy` | functionSolution/functionSolution/RequestedResource.cs:8-24 | of all spellings, the parsed one has the longest hub; for that hub, the longest device; for both, the longest module (the regex's backtracking order) |
| `RequestedResource.Format` | functionSolution/functionSolution/RequestedResource.cs:33-35 | `ToString()` of a resource with non-empty fields is a string the parser accepts; with `/`-free fields and the hub name derived from the host name, it parses back to the very same resource |
| `RequestedResource.FormatParse` | functionSolution/functionSolution/RequestedResource.cs:33-35 | `ToString()` of a parsed resource gives back the parsed string exactly |
| `RequestedResource.ParseFormat` | functionSolution/functionSolution/RequestedResource.cs:16-35 | parsing the `ToString()` of fields without `/` returns exactly those fields |
| `RequestedResource.HubName` | functionSolution/functionSolution/RequestedResource.cs:25 | the hub name is a dot-free prefix of the host name, and either all of it or followed by a `.` |
| `GreedyRegex.GreedyComplete` | functionSolution/functionSolution/RequestedResource.cs:18 | whenever the groups can cover the text at all, the search finds a cover, and it is at least as greedy as any other |
| `GreedyRegex.FirstMatchComplete` | functionSolution/functionSolution/Helpers.cs:70 | whenever the pattern matches somewhere, `Regex.Match` succeeds no later than there, and at that start its groups are at least as greedy |
| `GreedyRegex.GreedyWhenFree` | functionSolution/functionSolution/RequestedResource.cs:8 | when the fields hold no `/` and every literal part starts with one, the greedy groups are exactly those fields |
| `ResourceId.GetResourceGroupName` | functionSolution/functionSolution/Helpers.cs:67-79 | succeeds exactly when the pattern matches, with the `.` taking one UTF-16 code unit other than a newline; the result is the non-empty `RGNAME` group of the leftmost, greediest match; otherwise `FormatException` |
| `ResourceId.MatchesIff` | functionSolution/functionSolution/Helpers.cs:70-78 | the name is returned exactly when the pattern fits the id at some start with some groups |
| `ResourceId.NameBetweenSeparators` | functionSolution/functionSolution/Helpers.cs:69-73 | the returned name sits in the id right after `/resourceGroups/` and right before text matching `/providers/Microsoft.Devices/IotHubs/` |
| `ResourceId.HubResourceGroup` | functionSolution/functionSolution/Helpers.cs:67-79 | for an IoT hub id built from a subscription, group and hub without `/`, the result is that group |
| `Strings.RemoveAllChanges` | functionSolution/functionSolution/AuthorizationHeaderHandler.cs:18 | `Replace(prefix, "")` leaves a string without the prefix untouched and shortens one that contains it |
| `Strings.RemoveAllInner` | functionSolution/functionSolution/AuthorizationHeaderHandler.cs:18 | in `a + prefix + b`, where `a` holds no first character of the prefix, the occurrence after `a` is removed and the rest of the text is treated the same way |
| `Strings.Split` | functionSolution/functionSolution/AuthorizationHeaderHandler.cs:18 | `Split('&')` gives at least one piece, pieces without the separator, and joining them back gives the input |
| `Strings.SplitJoin` | functionSolution/functionSolution/AuthorizationHeaderHandler.cs:18 | splitting the join of separator-free pieces gives back those pieces |
| `Strings.TrimUnchanged` | functionSolution/functionSolution/AuthorizationHeaderHandler.cs:18 | `Trim()` leaves text alone that neither starts nor ends in white space |
| `AuthorizationHeaderHandler.SplitField` | functionSolution/functionSolution/AuthorizationHeaderHandler.cs:24-32 | reading `fieldParts[1]` succeeds exactly when the field holds an `=`; the key and value are the text before the first `=` and between it and the next `=` or the end |
| `AuthorizationHeaderHandler.SplitFieldOf` | functionSolution/functionSolution/AuthorizationHeaderHandler.cs:24 | a field written `key=value` without further `=` splits into that key and value |
| `AuthorizationHeaderHandler.Collect` | functionSolution/functionSolution/AuthorizationHeaderHandler.cs:17-34 | the loop fills the dictionary without throwing exactly when every non-empty field has an `=` and no two keys are equal ignoring ASCII case |
| `AuthorizationHeaderHandler.CollectStores` | functionSolution/functionSolution/AuthorizationHeaderHandler.cs:20-34 | afterwards each non-empty field's value is stored under its case-folded key |
| `AuthorizationHeaderHandler.CollectOnly` | functionSolution/functionSolution/AuthorizationHeaderHandler.cs:20-34 | every key in the dictionary comes from some non-empty field |
| `AuthorizationHeaderHandler.SigRepairIsCaseSensitive` | functionSolution/functionSolution/AuthorizationHeaderHandler.cs:25-32 | only a key spelled exactly `sig` has its value repaired, though every spelling is filed under the same case-folded key |
| `AuthorizationHeaderHandler.LookupCollected` | functionSolution/functionSolution/AuthorizationHeaderHandler.cs:35-37 | `parsedFields[name]` on the filled dictionary finds a value exactly when some non-empty field's key equals `name` ignoring ASCII case, and that value is the field's own |
| `AuthorizationHeaderHandler.FieldWithoutEqualsFails` | functionSolution/functionSolution/AuthorizationHeaderHandler.cs:24-42 | a non-empty field without `=` makes the constructor throw "Invalid header received" |
| `AuthorizationHeaderHandler.DuplicateKeyFails` | functionSolution/functionSolution/AuthorizationHeaderHandler.cs:32-42 | two non-empty fields whose keys differ only in ASCII case make the constructor throw |
| `AuthorizationHeaderHandler.MissingFieldFails` | functionSolution/functionSolution/AuthorizationHeaderHandler.cs:35-42 | without an `sr`, `se` or `sig` field in any case, the constructor throws |
| `AuthorizationHeaderHandler.Parse` | functionSolution/functionSolution/AuthorizationHeaderHandler.cs:12-43 | the constructor succeeds only on fields the dictionary accepts that include `sr`, `se` and `sig` in some case; the handler's resource is the parse of the `sr` value, and its expiry and signature are the `se` and `sig` values |
| `AuthorizationHeaderHandler.FromFieldsHolds` | functionSolution/functionSolution/AuthorizationHeaderHandler.cs:20-42 | the same guarantees, stated for the fields after decoding, trimming and splitting |
| `AuthorizationHeaderHandler.FromFieldsReads` | functionSolution/functionSolution/AuthorizationHeaderHandler.cs:20-42 | with all three fields present, construction succeeds exactly when the dictionary accepts the fields and `sr` parses; the handler then holds the parsed `sr`, the `se` value and the `sig` value |
| `AuthorizationHeaderHandler.UnknownKeyIgnored` | functionSolution/functionSolution/AuthorizationHeaderHandler.cs:20-37 | adding a field whose key, ignoring ASCII case, is fresh and is none of `sr`, `se`, `sig` does not change the outcome |
| `AuthorizationHeaderHandler.ComputedSignature` | functionSolution/functionSolution/AuthorizationHeaderHandler.cs:70-73 | the recomputed signature is well-formed standard base64 |
| `AuthorizationHeaderHandler.IsValid` | functionSolution/functionSolution/AuthorizationHeaderHandler.cs:45-76 | false for an empty expiry, signature or key, for an unreadable expiry, and for an expiry before now; an exception only when the key is not base64; true only when the signature is the recomputed one |
| `AuthorizationHeaderHandler.IsValidExactly` | functionSolution/functionSolution/AuthorizationHeaderHandler.cs:45-76 | true exactly when everything is non-empty, the expiry reads as a number not before now, the key decodes, and the signatures are equal |
| `AuthorizationHeaderHandler.ExpiryInclusive` | functionSolution/functionSolution/AuthorizationHeaderHandler.cs:58-62 | a token is still accepted at the very instant of its expiry |
| `AuthorizationHeaderHandler.ValidEarlier` | functionSolution/functionSolution/AuthorizationHeaderHandler.cs:54-68 | a token valid now was valid at every earlier instant |
| `AuthorizationHeaderHandler.InvalidAfterExpiry` | functionSolution/functionSolution/AuthorizationHeaderHandler.cs:58-62 | after its expiry the same token is rejected |
| `AuthorizationHeaderHandler.TamperedSignatureRejected` | functionSolution/functionSolution/AuthorizationHeaderHandler.cs:70-75 | replacing the handler's repaired signature of a valid token by any other text makes it invalid |
| `AuthorizationHeaderHandler.TamperedExpiryRejected` | functionSolution/functionSolution/AuthorizationHeaderHandler.cs:70-75 | replacing the expiry of a valid handler by any other text makes it invalid, unless the two different signed messages have equal base64 HMACs under the key: a successful forgery exhibits an HMAC collision |
| `AuthorizationHeaderHandler.TamperedResourceRejected` | functionSolution/functionSolution/AuthorizationHeaderHandler.cs:70-75 | replacing the resource of a valid handler, parsed from `sr`, by the parse of any other `sr` text makes it invalid, unless `HttpUtility.UrlEncode` writes the two texts the same or the two different signed messages have equal base64 HMACs under the key |
| `UrlSafeSignature.UrlSafe` | edgeSolution/modules/authenticator/Program.cs:97 | the URL-safe signature holds no `+` or `/`, does not end in `=`, and is no longer than the original |
| `UrlSafeSignature.RepairSig` | functionSolution/functionSolution/AuthorizationHeaderHandler.cs:28-30 | every `-` becomes `+` and every `_` becomes `/`, all other characters unchanged; `==` is appended when the UTF-16 length is 2 modulo 4, `=` when it is 3, nothing otherwise; the result's UTF-16 length is 0 or 1 modulo 4 |
| `UrlSafeSignature.RepairUrlSafe` | functionSolution/functionSolution/AuthorizationHeaderHandler.cs:25-31 | the repair undoes the module's URL-safe rewriting of every well-formed base64 signature |
| `UrlSafeSignature.UrlSafeAlphabet` | edgeSolution/modules/authenticator/Program.cs:97 | the URL-safe signature uses only letters, digits, `-` and `_` |
| `Base64.Encode` | edgeSolution/modules/authenticator/Program.cs:90 | n bytes become 4·⌈n/3⌉ characters |
| `Base64.EncodeWellFormed` | functionSolution/functionSolution/AuthorizationHeaderHandler.cs:73 | the encoding is well-formed base64 (whole groups of four, at most two trailing `=`, alphabet characters otherwise) and is empty only for no bytes |
| `Decimal.DecimalString` | edgeSolution/modules/authenticator/Program.cs:86 | the expiry text is non-empty digits with at most a leading `-` |
| `Decimal.ParseDecimalString` | edgeSolution/modules/authenticator/Program.cs:86 | reading the written expiry back gives the integer |
| `Decimal.DecimalStringInjective` | edgeSolution/modules/authenticator/Program.cs:86 | different expiries are written differently |
| `TokenBuilder.Truncate` | edgeSolution/modules/authenticator/Program.cs:84 | the `(int)` cast truncates toward zero, for negative readings too |
| `TokenBuilder.ExpiryAsWritten` | edgeSolution/modules/authenticator/Program.cs:84-86 | the `int` sum stays in the 32-bit range |
| `TokenBuilder.ExpiryAsWrittenWraps` | edgeSolution/modules/authenticator/Program.cs:84-86 | at `sinceEpoch = 2147483000` the sum as written is `-2147482496`, which is before `sinceEpoch` |
| `TokenBuilder.ExpiryAsWrittenAgrees` | edgeSolution/modules/authenticator/Program.cs:84-86 | the sum as written equals the intended expiry exactly when it does not pass `int.MaxValue` |
| `TokenBuilder.Expiry` | edgeSolution/modules/authenticator/Program.cs:85-86 | the intended expiry is always later than `sinceEpoch` |
| `TokenBuilder.ExpiryLeavesWindow` | edgeSolution/modules/authenticator/Program.cs:84-86 | the expiry is more than 1799 seconds after the exact clock reading |
| `TokenBuilder.ResourceUriParses` | edgeSolution/modules/authenticator/Program.cs:88 | the resource the module builds parses on the receiving side and formats back to itself; with `/`-free names it parses to exactly those names and method `update` |
| `TokenBuilder.Signer` | edgeSolution/modules/authenticator/Program.cs:122-127 | no request is made for empty input; otherwise the answer is the workload API's. What this means for the header is stated by `TokenBuilder.NoHeaderWithoutSignature` |
| `TokenBuilder.BuildHeader` | edgeSolution/modules/authenticator/Program.cs:84-99 | a header is built only from a non-empty signer answer, and it is the encoded `SharedAccessSignature sr=…&sig=…&se=…` with the URL-safe signature and the expiry 1800 seconds after the truncated clock (the corrected sum; see "Left out"). `TokenBuilder.NoHeaderWithoutSignature`, `Protocol.BuildThenParse` and `Protocol.BuildThenValidate` state what the header means to the reader |
| `TokenBuilder.NoHeaderWithoutSignature` | edgeSolution/modules/authenticator/Program.cs:93-99 | no header is built exactly when the signer answers null or empty |
| `Protocol.AssembledFields` | edgeSolution/modules/authenticator/Program.cs:98 | the assembled header, after the prefix is removed and the rest trimmed and split, gives exactly the three fields `sr=…`, `sig=…`, `se=…` |
| `Protocol.ThreeFieldsRead` | functionSolution/functionSolution/AuthorizationHeaderHandler.cs:20-37 | the three fields the module writes make a handler with the parsed resource, the expiry text and the repaired signature |
| `Protocol.BuildThenParse` | edgeSolution/modules/authenticator/Program.cs:88-99 | a built header is read back as the parsed resource, the expiry text and the very signature the signer returned |
| `Protocol.BuildThenValidate` | functionSolution/functionSolution/AuthorizationHeaderHandler.cs:54-75 | with an honest signer holding the key the app decodes, the built header is accepted exactly at instants not after its expiry |
| `Protocol.AcceptedWithinHalfHour` | edgeSolution/modules/authenticator/Program.cs:84-86 | the built header, with the corrected expiry, is accepted for at least the next 1799 seconds (see "Left out") |

## Left out

- `TokenBuilder.BuildHeader`: it writes the corrected expiry `Expiry`, not the wrapping `int` sum at Program.cs:84-86. The two agree exactly while `Truncate(now) + 1800` does not pass `int.MaxValue` (`TokenBuilder.ExpiryAsWrittenAgrees`). The `(int)` cast of a clock reading outside the 32-bit range is left out here too.
- `Protocol.AcceptedWithinHalfHour`: proved for the builder with the corrected expiry. Program.cs as written gives an expiry that has already passed once `sinceEpoch` exceeds 2147481847 (see "Findings"). The out-of-range `(int)` cast is left out as for `TokenBuilder.BuildHeader`.
- The workload-API call inside `Signer` (Program.cs:128 on: socket, HTTP request, JSON) is out of scope. Its answer is the parameter `workload`.
- The host code is not modelled: `Main`, `Init`, the twin-update callback, environment-variable reads, the `HttpClient` POST and `SendEventAsync`. The identity is a parameter.
- `Helpers.GetModulePrimaryKey` (a registry-manager call) and the function entry point in `authenticator.cs` are not modelled. They are I/O around the core.
- Logging through `ILogger` and `Console` is not modelled. It does not affect results.
- These library primitives are abstract function parameters (`Platform.Primitives`), not definitions: `HttpUtility.UrlEncode`, `WebUtility.UrlEncode`/`UrlDecode`, `Encoding.UTF8.GetBytes`, HMAC-SHA256, `Convert.FromBase64String` and `double.TryParse`. The end-to-end lemmas state the laws they need as preconditions:
  - decoding undoes encoding;
  - the number parser reads integer text as that integer;
  - UTF-8 and HMAC output of non-empty input is non-empty.
- Floating point is not modelled. `TotalSeconds` and `double.TryParse` are read as exact reals.
- `TokenBuilder.ExpiryAsWritten`: the `(int)` cast of a clock reading outside the 32-bit range (after January 2038) is not modelled. The member requires a 32-bit `sinceEpoch`.
- Case-insensitive key comparison (`Strings.FoldCase`) folds ASCII letters only. `StringComparer.OrdinalIgnoreCase` also folds non-ASCII letters, and its Unicode case table is not modelled. The lines below say what this costs.
- `AuthorizationHeaderHandler.Collect`: keys that differ only in non-ASCII case, such as `é` and `É`, are distinct keys in the model but duplicates in .NET. So for `é=1&É=2&…` the model fills the dictionary where .NET's `Add` throws, and the model accepts headers the source rejects.
- `AuthorizationHeaderHandler.DuplicateKeyFails`: covers keys equal ignoring ASCII case only. Keys that differ only in non-ASCII case also make .NET throw, but not the model.
- `AuthorizationHeaderHandler.UnknownKeyIgnored`: "fresh" means fresh ignoring ASCII case. In .NET, appending `É=2` after `é=1` makes the constructor throw, and the model does not promise that.
- `AuthorizationHeaderHandler.TamperedExpiryRejected`, `AuthorizationHeaderHandler.TamperedResourceRejected`: these reduce forgery to a collision and go no further. `hmac` is abstract, and a fixed-length MAC has collisions, so the model cannot say that a changed `se` or `sr` is always rejected. It proves only that an accepted change exhibits two different messages with equal HMACs (`HmacCollision`), or for `sr` two texts that URL-encode the same (`UrlEncodeCollision`). That such collisions are hard to find is the security assumption on HMAC-SHA256, and it is outside the model.
- Null strings do not exist in the model, and neither do unset environment variables. Both sides handle null only on paths this model does not take.
- `IsValid`'s `requestedResource == null` test (AuthorizationHeaderHandler.cs:48) cannot fire. The constructor either sets the resource or throws, so `Handler` always holds one.
- Immutability of the handler and the resource (private setters) holds by construction: both are datatype values.
- `RequestedResource.ParseFormat`: stated only for fields without `/`. With a `/` inside a field, the greedy groups can differ from the fields; `RequestedResource.ParseIsGreedy` states which groups are chosen then.
- `ResourceId.HubResourceGroup`: stated only for ids whose parts hold no `/`, for the same reason.

## Findings

| source | as written | input that shows it | evidently intended | confidence | as-written member | corrected member |
|---|---|---|---|---|---|---|
| edgeSolution/modules/authenticator/Program.cs:84-86 | `sinceEpoch + thirtyMinutesInSeconds` is a sum of two `int`s, which wraps around past `int.MaxValue` | `sinceEpoch = 2147483000` (January 2038) gives the expiry `-2147482496`, a date in 1901, so every token is already expired | an expiry 1800 seconds after `sinceEpoch` | not executed | `TokenBuilder.ExpiryAsWritten` (with `TokenBuilder.ExpiryAsWrittenWraps`) | `TokenBuilder.Expiry` (with `TokenBuilder.ExpiryLeavesWindow`) |
