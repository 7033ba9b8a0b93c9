/** The resource a token authorises, `RequestedResource`: an IoT hub
    host name, a device, a module and a direct method, written
    `{hub}/devices/{device}/modules/{module}/methods/{method}`. It is parsed
    with the regular expression
    `(?<IOTHUBHOSTNAME>[\d\D]+)/devices/(?<DEVICEID>[\d\D]+)/modules/(?<MODULEID>[\d\D]+)/methods/(?<METHOD>[\d\D]+)`
    and formatted back by `ToString()`. Its fields are set only while it is
    constructed, which a datatype value gives for free. */
module RequestedResource {
  import opened Wrappers
  import opened Strings
  import opened GreedyRegex

  datatype Resource = Resource(
    hubFqdn: string,   // iotHubFQDN
    hubName: string,   // iotHubName
    deviceId: string,
    moduleId: string,
    methodName: string)

  /** The FormatException thrown when `sr` does not match. */
  datatype FormatError = UnexpectedResourceFormat

  const Devices: string := "/devices/"
  const Modules: string := "/modules/"
  const Methods: string := "/methods/"

  /** The literal parts between the four groups. */
  const Separators: seq<Lit> := [Literal(Devices), Literal(Modules), Literal(Methods)]

  /** The resource regular expression: no lead, four greedy groups. */
  const ResourceRegex: Regex := Regex([], Separators)

  /** The canonical string of the four fields. */
  function ResourceString(hub: string, device: string, moduleId: string, methodName: string): string {
    hub + Devices + (device + Modules + (moduleId + Methods + methodName))
  }

  /** `ToString()`: the string of a resource with non-empty fields parses,
      and for fields without `/` it parses back to the same resource. */
  function Format(r: Resource): (s: string)
    ensures |r.hubFqdn| > 0 && |r.deviceId| > 0 && |r.moduleId| > 0 && |r.methodName| > 0 ==>
      Parse(s).Success?
    ensures && |r.hubFqdn| > 0 && |r.deviceId| > 0 && |r.moduleId| > 0 && |r.methodName| > 0
            && '/' !in r.hubFqdn && '/' !in r.deviceId && '/' !in r.moduleId && '/' !in r.methodName
            && r.hubName == HubName(r.hubFqdn)
            ==> Parse(s) == Success(r)
  {
    var s := ResourceString(r.hubFqdn, r.deviceId, r.moduleId, r.methodName);
    if |r.hubFqdn| == 0 || |r.deviceId| == 0 || |r.moduleId| == 0 || |r.methodName| == 0 then s
    else
      ParseIsGreedy(s, r.hubFqdn, r.deviceId, r.moduleId, r.methodName);
      if '/' in r.hubFqdn || '/' in r.deviceId || '/' in r.moduleId || '/' in r.methodName then s
      else
        ParseFormat(r.hubFqdn, r.deviceId, r.moduleId, r.methodName);
        s
  }

  /** `iotHubFQDN.Split('.')[0]`: the text before the first dot, or the whole
      name when it has none. */
  function HubName(fqdn: string): (r: string)
    ensures |r| <= |fqdn| && r == fqdn[..|r|]
    ensures '.' !in r
    ensures |r| < |fqdn| ==> fqdn[|r|] == '.'
  {
    var parts := Split(fqdn, '.');
    assert |parts| == 1 ==> fqdn == parts[0];
    assert |parts| > 1 ==> fqdn == parts[0] + ['.'] + Join(parts[1..], '.');
    parts[0]
  }

  /** The four fields are non-empty and spell `s`. */
  predicate Spells(s: string, hub: string, device: string, moduleId: string, methodName: string) {
    && |hub| > 0 && |device| > 0 && |moduleId| > 0 && |methodName| > 0
    && s == ResourceString(hub, device, moduleId, methodName)
  }

  /** `s` has the shape the regular expression accepts. */
  ghost predicate WellShaped(s: string) {
    exists hub, device, moduleId, methodName {:trigger Spells(s, hub, device, moduleId, methodName)}
      :: Spells(s, hub, device, moduleId, methodName)
  }

  /** The constructor `RequestedResource(string sr)`. */
  function Parse(sr: string): (r: Result<Resource, FormatError>)
    ensures r.Success? ==> Spells(sr, r.value.hubFqdn, r.value.deviceId, r.value.moduleId, r.value.methodName)
    ensures r.Success? ==> r.value.hubName == HubName(r.value.hubFqdn)
  {
    match FirstMatch(sr, ResourceRegex)
    case Some(m) =>
      LeadlessMatch(sr, Separators);
      DecompSpells(sr, m.groups);
      Success(Resource(m.groups[0], HubName(m.groups[0]), m.groups[1], m.groups[2], m.groups[3]))
    case None => Failure(UnexpectedResourceFormat)
  }

  /** A decomposition by the three separators is exactly a spelling. */
  lemma DecompSpells(s: string, gs: seq<string>)
    requires IsDecomp(s, Separators, gs)
    ensures |gs| == 4 && Spells(s, gs[0], gs[1], gs[2], gs[3])
  {
    DecompThree(s, Devices, Modules, Methods, gs);
  }

  lemma SpellsDecomp(s: string, hub: string, device: string, moduleId: string, methodName: string)
    requires Spells(s, hub, device, moduleId, methodName)
    ensures IsDecomp(s, Separators, [hub, device, moduleId, methodName])
  {
    var r2 := moduleId + Methods + methodName;
    var r1 := device + Modules + r2;
    assert IsDecomp(methodName, [], [methodName]);
    DecompLiteralJoin(moduleId, Methods, methodName, [], [methodName]);
    assert [Literal(Methods)] + [] == [Literal(Methods)];
    assert [moduleId] + [methodName] == [moduleId, methodName];
    DecompLiteralJoin(device, Modules, r2, [Literal(Methods)], [moduleId, methodName]);
    assert [Literal(Modules)] + [Literal(Methods)] == [Literal(Modules), Literal(Methods)];
    assert [device] + [moduleId, methodName] == [device, moduleId, methodName];
    DecompLiteralJoin(hub, Devices, r1, [Literal(Modules), Literal(Methods)], [device, moduleId, methodName]);
    assert [Literal(Devices)] + [Literal(Modules), Literal(Methods)] == Separators;
    assert [hub] + [device, moduleId, methodName] == [hub, device, moduleId, methodName];
  }

  /** Parsing succeeds exactly on well-shaped strings; otherwise it throws
      FormatException. */
  lemma ParseSucceedsIff(s: string)
    ensures Parse(s).Success? <==> WellShaped(s)
  {
    if Parse(s).Success? {
      var r := Parse(s).value;
      assert Spells(s, r.hubFqdn, r.deviceId, r.moduleId, r.methodName);
    }
    if WellShaped(s) {
      var hub, device, moduleId, methodName :| Spells(s, hub, device, moduleId, methodName);
      ParseIsGreedy(s, hub, device, moduleId, methodName);
    }
  }

  /** Round trip: formatting what was parsed gives back the input, so the
      match starts at index 0 and the last group runs to the end. */
  lemma FormatParse(s: string)
    requires Parse(s).Success?
    ensures Format(Parse(s).value) == s
  {
  }

  /** The greedy decomposition: the hub is the longest prefix that leaves a
      matching remainder; for that hub the device is the longest, and for
      both the module is the longest. */
  lemma ParseIsGreedy(s: string, hub: string, device: string, moduleId: string, methodName: string)
    requires Spells(s, hub, device, moduleId, methodName)
    ensures Parse(s).Success?
    ensures var r := Parse(s).value;
      || |hub| < |r.hubFqdn|
      || (|hub| == |r.hubFqdn| && |device| < |r.deviceId|)
      || (|hub| == |r.hubFqdn| && |device| == |r.deviceId| && |moduleId| <= |r.moduleId|)
  {
    var hs := [hub, device, moduleId, methodName];
    SpellsDecomp(s, hub, device, moduleId, methodName);
    LeadlessMatch(s, Separators);
    GreedyComplete(s, Separators, hs);
    var gs := Greedy(s, Separators).value;
    DecompSpells(s, gs);
    ParseOfMatch(s, gs);
    assert AtLeastAsGreedy(gs, hs);
    assert |gs[0]| == |hub| ==> AtLeastAsGreedy(gs[1..], hs[1..]);
    assert gs[1..][1..] == gs[2..] && hs[1..][1..] == hs[2..];
    assert gs[1..][0] == gs[1] && hs[1..][0] == hs[1];
    assert |gs[0]| == |hub| && |gs[1]| == |device| ==> AtLeastAsGreedy(gs[2..], hs[2..]);
  }

  /** The slashes of the fixed text of a resource string. */
  lemma SeparatorSlashes()
    ensures Count(Devices, '/') == 2 && Count(Modules, '/') == 2 && Count(Methods, '/') == 2
    ensures SumRequired(Separators, '/') == 6
    ensures AllStartWith(Separators, '/')
  {
    SeparatorCounts();
    SeparatorsRequire('/');
    SeparatorsStartWithSlash();
  }

  lemma SeparatorCounts()
    ensures Count(Devices, '/') == 2 && Count(Modules, '/') == 2 && Count(Methods, '/') == 2
  {
    DevicesSlashes();
    ModulesSlashes();
    MethodsSlashes();
  }

  lemma DevicesSlashes() ensures Count(Devices, '/') == 2 { assert multiset(Devices)['/'] == 2; }
  lemma ModulesSlashes() ensures Count(Modules, '/') == 2 { assert multiset(Modules)['/'] == 2; }
  lemma MethodsSlashes() ensures Count(Methods, '/') == 2 { assert multiset(Methods)['/'] == 2; }

  lemma SeparatorsRequire(c: char)
    ensures SumRequired(Separators, c) == Count(Devices, c) + Count(Modules, c) + Count(Methods, c)
  {
    LiteralsRequire(Devices, Modules, Methods, c);
  }

  lemma LiteralsRequire(a: string, b: string, d: string, c: char)
    ensures SumRequired([Literal(a), Literal(b), Literal(d)], c) == Count(a, c) + Count(b, c) + Count(d, c)
  {
    var la, lb, ld := Literal(a), Literal(b), Literal(d);
    RequiredLiteral(a, c);
    RequiredLiteral(b, c);
    RequiredLiteral(d, c);
    var all := [la, lb, ld];
    assert all[1..] == [lb, ld] && all[1..][1..] == [ld];
    assert SumRequired([ld], c) == Required(ld, c);
    assert SumRequired([lb, ld], c) == Required(lb, c) + SumRequired([ld], c);
  }

  lemma SeparatorsStartWithSlash()
    ensures AllStartWith(Separators, '/')
  {
    var all := [Literal(Devices), Literal(Modules), Literal(Methods)];
    forall i | 0 <= i < |all| ensures |all[i]| > 0 && all[i][0] == Exact('/') {
      if i == 0 {
        assert all[i][0] == Exact(Devices[0]);
      } else if i == 1 {
        assert all[i][0] == Exact(Modules[0]);
      } else {
        assert all[i][0] == Exact(Methods[0]);
      }
    }
  }

  lemma CountResourceString(hub: string, device: string, moduleId: string, methodName: string, c: char)
    ensures Count(ResourceString(hub, device, moduleId, methodName), c)
         == Count(hub, c) + Count(Devices, c) + Count(device, c) + Count(Modules, c)
          + Count(moduleId, c) + Count(Methods, c) + Count(methodName, c)
  {
    var r2 := moduleId + Methods + methodName;
    var r1 := device + Modules + r2;
    CountConcat(moduleId, Methods, c);
    CountConcat(moduleId + Methods, methodName, c);
    CountConcat(device, Modules, c);
    CountConcat(device + Modules, r2, c);
    CountConcat(hub, Devices, c);
    CountConcat(hub + Devices, r1, c);
  }

  /** Format then parse recovers the four fields when none holds a `/`. */
  lemma ParseFormat(hub: string, device: string, moduleId: string, methodName: string)
    requires |hub| > 0 && |device| > 0 && |moduleId| > 0 && |methodName| > 0
    requires '/' !in hub && '/' !in device && '/' !in moduleId && '/' !in methodName
    ensures Parse(ResourceString(hub, device, moduleId, methodName))
         == Success(Resource(hub, HubName(hub), device, moduleId, methodName))
  {
    var s := ResourceString(hub, device, moduleId, methodName);
    GreedyResourceString(hub, device, moduleId, methodName);
    LeadlessMatch(s, Separators);
    ParseOfMatch(s, [hub, device, moduleId, methodName]);
  }

  /** The greedy groups of a resource string whose fields hold no `/` are
      those fields. */
  lemma GreedyResourceString(hub: string, device: string, moduleId: string, methodName: string)
    requires |hub| > 0 && |device| > 0 && |moduleId| > 0 && |methodName| > 0
    requires '/' !in hub && '/' !in device && '/' !in moduleId && '/' !in methodName
    ensures Greedy(ResourceString(hub, device, moduleId, methodName), Separators)
         == Some([hub, device, moduleId, methodName])
  {
    var s := ResourceString(hub, device, moduleId, methodName);
    var hs := [hub, device, moduleId, methodName];
    SpellsDecomp(s, hub, device, moduleId, methodName);
    FreeOfFour(hub, device, moduleId, methodName, '/');
    SeparatorSlashes();
    ResourceStringSlashes(hub, device, moduleId, methodName);
    GreedyWhenFree(s, Separators, hs, '/');
  }

  lemma FreeOfFour(a: string, b: string, d: string, e: string, c: char)
    requires c !in a && c !in b && c !in d && c !in e
    ensures FreeOf([a, b, d, e], c)
  {
  }

  lemma ResourceStringSlashes(hub: string, device: string, moduleId: string, methodName: string)
    requires '/' !in hub && '/' !in device && '/' !in moduleId && '/' !in methodName
    ensures Count(ResourceString(hub, device, moduleId, methodName), '/') == 6
  {
    SeparatorCounts();
    CountZero(hub, '/'); CountZero(device, '/'); CountZero(moduleId, '/'); CountZero(methodName, '/');
    CountResourceString(hub, device, moduleId, methodName, '/');
  }

  /** What Parse makes of a match starting at index 0. */
  lemma ParseOfMatch(s: string, gs: seq<string>)
    requires |gs| == 4 && FirstMatch(s, ResourceRegex) == Some(Match(0, gs))
    ensures Parse(s) == Success(Resource(gs[0], HubName(gs[0]), gs[1], gs[2], gs[3]))
  {
  }
}
