/** The resource-group name inside an Azure resource id, as the function
    app extracts it with
    `/subscriptions/(.+)/resourceGroups/(.+)/providers/Microsoft.Devices/IotHubs/(.+)`
    where each group is `[\d\D]+` and the `.` in `Microsoft.Devices` is
    the unescaped wildcard: one UTF-16 code unit other than a newline, so
    any character of the Basic Multilingual Plane but a newline. */
module ResourceId {
  import opened Wrappers
  import opened Strings
  import opened GreedyRegex

  datatype FormatError = UnexpectedResourceIdFormat

  const Subscriptions: string := "/subscriptions/"
  const ResourceGroups: string := "/" + "resourceGroups" + "/"
  const ProvidersHead: string := "/" + "providers" + "/" + "Microsoft"
  const ProvidersTail: string := "Devices" + "/" + "IotHubs" + "/"

  /** `/providers/Microsoft`, one wildcard, `Devices/IotHubs/`. */
  const Providers: Lit := Literal(ProvidersHead) + [Wildcard] + Literal(ProvidersTail)

  const ResourceIdRegex: Regex := Regex(Literal(Subscriptions), [Literal(ResourceGroups), Providers])

  /** The `RGNAME` group of the first match, or the `FormatException`. */
  function GetResourceGroupName(resourceId: string): (r: Result<string, FormatError>)
    ensures r.Success? <==> FirstMatch(resourceId, ResourceIdRegex).Some?
    ensures r.Success? ==> |r.value| > 0
    ensures r.Success? ==> r.value == FirstMatch(resourceId, ResourceIdRegex).value.groups[1]
  {
    match FirstMatch(resourceId, ResourceIdRegex)
    case None => Failure(UnexpectedResourceIdFormat)
    case Some(m) =>
      var rest := resourceId[m.start + |Subscriptions|..];
      DecompLiteralSplit(rest, ResourceGroups, [Providers], m.groups);
      Success(m.groups[1])
  }

  /** The id matches exactly when some placement of the pattern fits it;
      otherwise the function throws. */
  lemma MatchesIff(resourceId: string)
    ensures GetResourceGroupName(resourceId).Success?
        <==> exists q: nat, gs: seq<string> :: MatchAt(resourceId, ResourceIdRegex, q, gs)
  {
    if exists q: nat, gs: seq<string> :: MatchAt(resourceId, ResourceIdRegex, q, gs) {
      var q: nat, gs: seq<string> :| MatchAt(resourceId, ResourceIdRegex, q, gs);
      FirstMatchComplete(resourceId, ResourceIdRegex, q, gs);
    }
  }

  /** The name sits between a `/resourceGroups/` and a following
      `/providers/Microsoft?Devices/IotHubs/` of the matched text. */
  lemma NameBetweenSeparators(resourceId: string)
    requires GetResourceGroupName(resourceId).Success?
    ensures var m := FirstMatch(resourceId, ResourceIdRegex).value;
      var name := GetResourceGroupName(resourceId).value;
      var at := m.start + |Subscriptions| + |m.groups[0]| + |ResourceGroups|;
      && at + |name| + |Providers| <= |resourceId|
      && resourceId[at - |ResourceGroups|..at] == ResourceGroups
      && resourceId[at..at + |name|] == name
      && MatchesAt(resourceId, Providers, at + |name|)
  {
    var m := FirstMatch(resourceId, ResourceIdRegex).value;
    SecondGroupAt(resourceId, m.start + |Subscriptions|, ResourceGroups, Providers, m.groups);
  }

  /** The id of an IoT hub, `/subscriptions/S/resourceGroups/R/providers/Microsoft.Devices/IotHubs/H`. */
  function HubResourceId(subscription: string, group: string, hub: string): string {
    Subscriptions + subscription + ResourceGroups + group + (ProvidersHead + "." + ProvidersTail) + hub
  }

  /** For an IoT hub's id whose parts hold no `/`, the result is the
      resource group. */
  lemma HubResourceGroup(subscription: string, group: string, hub: string)
    requires |subscription| > 0 && |group| > 0 && |hub| > 0
    requires '/' !in subscription && '/' !in group && '/' !in hub
    ensures GetResourceGroupName(HubResourceId(subscription, group, hub)) == Success(group)
  {
    var rest := subscription + ResourceGroups + group + (ProvidersHead + "." + ProvidersTail) + hub;
    SplitHubId(subscription, group, hub);
    HubGroups(subscription, group, hub);
    LeadMatch(HubResourceId(subscription, group, hub), rest);
  }

  /** The greedy groups after the lead are the three parts. */
  lemma HubGroups(subscription: string, group: string, hub: string)
    requires |subscription| > 0 && |group| > 0 && |hub| > 0
    requires '/' !in subscription && '/' !in group && '/' !in hub
    ensures Greedy(subscription + ResourceGroups + group + (ProvidersHead + "." + ProvidersTail) + hub,
                   ResourceIdRegex.seps)
         == Some([subscription, group, hub])
  {
    var rest := subscription + ResourceGroups + group + (ProvidersHead + "." + ProvidersTail) + hub;
    var seps := [Literal(ResourceGroups), Providers];
    var gs := [subscription, group, hub];
    DecompHub(subscription, group, hub);
    HubSlashes(subscription, group, hub);
    ResourceIdSeparators();
    FreeOfThree(subscription, group, hub, '/');
    assert IsDecomp(rest, seps, gs);
    assert AllStartWith(seps, '/');
    assert Count(rest, '/') == SumRequired(seps, '/');
    GreedyWhenFree(rest, seps, gs, '/');
  }

  /** With the lead at index 0 and the greedy groups of the rest, the
      first match is found at index 0. */
  lemma LeadMatch(id: string, rest: string)
    requires id == Subscriptions + rest
    requires Greedy(rest, ResourceIdRegex.seps).Some?
    ensures FirstMatch(id, ResourceIdRegex) == Some(Match(0, Greedy(rest, ResourceIdRegex.seps).value))
    ensures |Greedy(rest, ResourceIdRegex.seps).value| == 3
    ensures GetResourceGroupName(id) == Success(Greedy(rest, ResourceIdRegex.seps).value[1])
  {
    LiteralMatchesAt(id, Subscriptions, 0);
    assert id[..|Subscriptions|] == Subscriptions;
    assert id[|Subscriptions|..] == rest;
  }

  /** The id is the subscription literal followed by the rest. */
  lemma SplitHubId(subscription: string, group: string, hub: string)
    ensures HubResourceId(subscription, group, hub)
         == Subscriptions + (subscription + ResourceGroups + group + (ProvidersHead + "." + ProvidersTail) + hub)
  {
    LeadOff(Subscriptions, subscription, ResourceGroups, group, ProvidersHead + "." + ProvidersTail, hub);
  }

  lemma LeadOff(a: string, b: string, c: string, d: string, e: string, f: string)
    ensures a + b + c + d + e + f == a + (b + c + d + e + f)
  {
  }

  lemma FreeOfThree(a: string, b: string, d: string, c: char)
    requires c !in a && c !in b && c !in d
    ensures FreeOf([a, b, d], c)
  {
  }

  /** The three parts form a decomposition of the text after the lead. */
  lemma DecompHub(subscription: string, group: string, hub: string)
    requires |subscription| > 0 && |group| > 0 && |hub| > 0
    ensures IsDecomp(subscription + ResourceGroups + group + (ProvidersHead + "." + ProvidersTail) + hub,
                     [Literal(ResourceGroups), Providers], [subscription, group, hub])
  {
    ProvidersMatch(group, hub);
    DecompOfParts(subscription, ResourceGroups, group, ProvidersHead + "." + ProvidersTail, hub, Providers);
  }

  /** Generic form of DecompHub: a first group, an exact separator, a
      second group, text matched by `p`, and a last group. */
  lemma DecompOfParts(a: string, sep: string, group: string, mid: string, hub: string, p: Lit)
    requires |a| > 0 && |group| > 0 && |hub| > 0
    requires var last := group + mid + hub;
      && |group| + |p| <= |last| && MatchesAt(last, p, |group|)
      && last[..|group|] == group && last[|group| + |p|..] == hub
    ensures IsDecomp(a + sep + group + mid + hub, [Literal(sep), p], [a, group, hub])
  {
    var last := group + mid + hub;
    DecompPair(last, p, group, hub);
    DecompLiteralJoin(a, sep, last, [p], [group, hub]);
    assert [Literal(sep)] + [p] == [Literal(sep), p];
    assert [a] + [group, hub] == [a, group, hub];
    assert IsDecomp(a + sep + last, [Literal(sep), p], [a, group, hub]);
    Reassociate(a, sep, group, mid, hub);
  }

  lemma Reassociate(a: string, b: string, c: string, d: string, e: string)
    ensures a + b + c + d + e == a + b + (c + d + e)
  {
  }

  /** Two groups around one literal part. */
  lemma DecompPair(last: string, p: Lit, group: string, hub: string)
    requires |group| > 0 && |hub| > 0 && |group| + |p| <= |last|
    requires MatchesAt(last, p, |group|) && last[..|group|] == group && last[|group| + |p|..] == hub
    ensures IsDecomp(last, [p], [group, hub])
  {
    assert IsDecomp(hub, [], [hub]);
    assert [p][1..] == [] && [group, hub][1..] == [hub];
  }

  /** The wildcard literal matches right after the group. */
  lemma ProvidersMatch(group: string, hub: string)
    ensures var s := group + (ProvidersHead + "." + ProvidersTail) + hub;
      && |group| + |Providers| <= |s|
      && MatchesAt(s, Providers, |group|)
      && s[..|group|] == group
      && s[|group| + |Providers|..] == hub
  {
    WildcardMatch(group, ProvidersHead, '.', ProvidersTail, hub);
  }

  /** Generic form of ProvidersMatch: `head`, one code unit other than a
      newline, `tail`, between two groups. */
  lemma WildcardMatch(group: string, head: string, c: char, tail: string, hub: string)
    requires c != '\n' && CodeUnits(c) == 1
    ensures var s := group + (head + [c] + tail) + hub;
      var p := Literal(head) + [Wildcard] + Literal(tail);
      && |group| + |p| <= |s|
      && MatchesAt(s, p, |group|)
      && s[..|group|] == group
      && s[|group| + |p|..] == hub
  {
    var mid := head + [c] + tail;
    var s := group + mid + hub;
    var p := Literal(head) + [Wildcard] + Literal(tail);
    forall k | 0 <= k < |p| ensures AtomMatches(p[k], s[|group| + k]) {
      assert s[|group| + k] == mid[k];
      if k < |head| {
        assert p[k] == Exact(head[k]) && mid[k] == head[k];
      } else if k > |head| {
        assert p[k] == Exact(tail[k - |head| - 1]) && mid[k] == tail[k - |head| - 1];
      }
    }
    assert s[..|group|] == group;
    assert s[|group| + |p|..] == hub;
  }

  lemma NoSlash(w: string)
    requires '/' !in w
    ensures Count(w, '/') == 0
  {
    CountZero(w, '/');
  }

  lemma OneSlash()
    ensures Count("/", '/') == 1
  {
    assert multiset("/")['/'] == 1;
  }

  /** Slashes of `a/b/` shaped text, with `a` and `b` free of them. */
  lemma SlashPairs(a: string, b: string)
    requires '/' !in a && '/' !in b
    ensures Count(a + "/" + b + "/", '/') == 2
    ensures Count("/" + a + "/" + b, '/') == 2
  {
    NoSlash(a); NoSlash(b); OneSlash();
    CountConcat(a, "/", '/');
    CountConcat(a + "/", b, '/');
    CountConcat(a + "/" + b, "/", '/');
    CountConcat("/", a, '/');
    CountConcat("/" + a, "/", '/');
    CountConcat("/" + a + "/", b, '/');
  }

  lemma ResourceGroupsSlashes()
    ensures Count(ResourceGroups, '/') == 2
  {
    assert '/' !in "resourceGroups";
    NoSlash("resourceGroups"); OneSlash();
    CountConcat("/", "resourceGroups", '/');
    CountConcat("/" + "resourceGroups", "/", '/');
  }

  lemma ProvidersHeadSlashes()
    ensures Count(ProvidersHead, '/') == 2
  {
    assert '/' !in "providers" && '/' !in "Microsoft";
    SlashPairs("providers", "Microsoft");
  }

  lemma ProvidersTailSlashes()
    ensures Count(ProvidersTail, '/') == 2
  {
    assert '/' !in "Devices" && '/' !in "IotHubs";
    SlashPairs("Devices", "IotHubs");
  }

  /** Slash count of the text after the lead. */
  lemma HubSlashes(subscription: string, group: string, hub: string)
    requires '/' !in subscription && '/' !in group && '/' !in hub
    ensures Count(subscription + ResourceGroups + group + (ProvidersHead + "." + ProvidersTail) + hub, '/') == 6
  {
    ResourceGroupsSlashes();
    ProvidersHeadSlashes();
    ProvidersTailSlashes();
    ShapeSlashes(subscription, ResourceGroups, group, ProvidersHead, ProvidersTail, hub);
  }

  /** Generic form of HubSlashes. */
  lemma ShapeSlashes(a: string, b: string, c: string, d: string, e: string, f: string)
    requires '/' !in a && '/' !in c && '/' !in f
    requires Count(b, '/') == 2 && Count(d, '/') == 2 && Count(e, '/') == 2
    ensures Count(a + b + c + (d + "." + e) + f, '/') == 6
  {
    NoSlash(a);
    NoSlash(c);
    NoSlash(f);
    CountJoined(a, b, c, d, e, f, '/');
  }

  /** Counting over the shape of a hub id, with a `.` in the middle. */
  lemma CountJoined(a: string, b: string, c: string, d: string, e: string, f: string, x: char)
    requires x != '.'
    ensures Count(a + b + c + (d + "." + e) + f, x)
         == Count(a, x) + Count(b, x) + Count(c, x) + Count(d, x) + Count(e, x) + Count(f, x)
  {
    var m := d + "." + e;
    CountDotted(d, e, x);
    CountConcat(a, b, x);
    CountConcat(a + b, c, x);
    CountConcat(a + b + c, m, x);
    CountConcat(a + b + c + m, f, x);
  }

  /** The `.` in the middle adds nothing to a count of another character. */
  lemma CountDotted(d: string, e: string, x: char)
    requires x != '.'
    ensures Count(d + "." + e, x) == Count(d, x) + Count(e, x)
  {
    CountZero(".", x);
    CountConcat(d, ".", x);
    CountConcat(d + ".", e, x);
  }

  /** The literal parts both begin with `/` and demand six of them. */
  lemma ResourceIdSeparators()
    ensures AllStartWith([Literal(ResourceGroups), Providers], '/')
    ensures SumRequired([Literal(ResourceGroups), Providers], '/') == 6
  {
    RequiredLiteral(ResourceGroups, '/');
    ResourceGroupsSlashes();
    ProvidersRequire();
    PairShape(Literal(ResourceGroups), Providers, '/');
  }

  /** Demand and first characters of a pair of literal parts. */
  lemma PairShape(a: Lit, b: Lit, c: char)
    requires |a| > 0 && |b| > 0 && a[0] == Exact(c) && b[0] == Exact(c)
    ensures AllStartWith([a, b], c)
    ensures SumRequired([a, b], c) == Required(a, c) + Required(b, c)
  {
    var all := [a, b];
    assert all[1..] == [b] && [b][1..] == [];
    assert SumRequired([b], c) == Required(b, c) + SumRequired([], c);
    forall i | 0 <= i < 2 ensures |all[i]| > 0 && all[i][0] == Exact(c) {
      if i == 1 { assert all[i] == b; }
    }
  }

  /** The wildcard demands no `/`; the two literal pieces two each. */
  lemma ProvidersRequire()
    ensures |Providers| > 0 && Providers[0] == Exact('/')
    ensures Required(Providers, '/') == 4
  {
    ProvidersHeadSlashes();
    ProvidersTailSlashes();
    WildcardRequire(ProvidersHead, ProvidersTail, '/');
  }

  lemma WildcardRequire(head: string, tail: string, c: char)
    requires |head| > 0
    ensures var p := Literal(head) + [Wildcard] + Literal(tail);
      && |p| > 0 && p[0] == Exact(head[0])
      && Required(p, c) == Count(head, c) + Count(tail, c)
  {
    RequiredConcat(Literal(head) + [Wildcard], Literal(tail), c);
    RequiredConcat(Literal(head), [Wildcard], c);
    RequiredLiteral(head, c);
    RequiredLiteral(tail, c);
    assert Required([Wildcard], c) == 0 by {
      assert [Wildcard][1..] == [];
    }
  }
}
