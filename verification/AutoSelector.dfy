/** The auto selector's planning: which members of the tracked groups are eligible, how they are
    ordered, and what a re-ranking leaves for the next plan. */
module AutoSelector {
  import opened Wrappers

  // -------------------------------------------------------------------------------------
  // Members

  datatype Kind = Plain | ChainKind | AutoSelectorKind | TailscaleKind | OpenVpn | OpenConnect | CustomKind

  datatype Custom = NoCustom | CustomOutbound | CustomXrayOutbound | CustomXrayFullConfig | CustomFullConfig

  /** A profile as the planner sees it; `country` is trimmed and in upper case. */
  datatype Profile = Profile(hasOutbound: bool, kind: Kind, custom: Custom, parses: bool, extraCore: bool, xray: bool,
                             xrayFull: bool, name: string, country: string, latency: int, latency_at: int)

  datatype Skip = Eligible | Missing | MetaType | CoreTransitions | ExtraCore | FullConfig | Malformed | Tailscale
                | ManagementEndpoint | NameFilter | CountryFilter | Unavailable | XrayFullChained

  /** `MemberFilters`; `matches` is the name filter's regular expression. */
  datatype Filters = Filters(hasName: bool, matches: string -> bool, countries: set<string>, excluded: set<string>)

  /** What a selector's settings contribute to eligibility and ranking. */
  datatype Settings = Settings(excludeUnavailable: bool, resultValidityMins: int, filters: Filters)

  predicate HasFreshResult(m: Option<Profile>, s: Settings, now: int) {
    m.Some? && m.value.latency != 0 && s.resultValidityMins > 0 && m.value.latency_at > 0
    && now - m.value.latency_at <= s.resultValidityMins * 60
  }

  function EligibilityOf(m: Option<Profile>, s: Settings, now: int): Skip {
    if m.None? || !m.value.hasOutbound then Missing
    else
      var p, f := m.value, s.filters;
      if p.kind == ChainKind || p.kind == AutoSelectorKind then MetaType
      else if p.kind == TailscaleKind then Tailscale
      else if p.kind == OpenVpn || p.kind == OpenConnect then ManagementEndpoint
      else if p.extraCore then ExtraCore
      else if p.kind == CustomKind && p.custom == NoCustom then Missing
      else if p.kind == CustomKind && p.custom == CustomFullConfig then FullConfig
      else if p.kind == CustomKind && !p.parses then Malformed
      else if f.hasName && !f.matches(p.name) then NameFilter
      else if (f.countries != {} || f.excluded != {})
        && (p.country == "" || p.country in f.excluded || (f.countries != {} && p.country !in f.countries)) then CountryFilter
      else if s.excludeUnavailable && p.latency < 0 && HasFreshResult(m, s, now) then Unavailable
      else Eligible
  }

  /** A group: its profiles, and the proxies every member of it is wrapped in. */
  datatype Group = Group(profiles: seq<int>, landing: Option<Profile>, front: Option<Profile>)

  /** How often a chain of hops changes between the two cores, starting outside Xray. */
  function Transitions(hops: seq<Option<Profile>>, inXray: bool): nat {
    if hops == [] then 0
    else if hops[0].None? || !hops[0].value.hasOutbound then Transitions(hops[1..], inXray)
    else (if hops[0].value.xray != inXray then 1 else 0) + Transitions(hops[1..], hops[0].value.xray)
  }

  predicate XrayFullConfigFitsChain(landing: Option<Profile>, front: Option<Profile>) {
    front.None?
    && (landing.None? || !landing.value.hasOutbound
        || (!landing.value.xray && !landing.value.xrayFull && !landing.value.extraCore))
  }

  /** The verdict on a member of a group: its own eligibility first, then the chain rules, and a
      fresh failure only after both. */
  function Verdict(m: Option<Profile>, g: Group, s: Settings, now: int): Skip {
    var skip := EligibilityOf(m, s, now);
    if skip != Eligible && skip != Unavailable then skip
    else if m.value.xrayFull then (if XrayFullConfigFitsChain(g.landing, g.front) then skip else XrayFullChained)
    else if Transitions([g.landing, m, g.front], false) > 2 then CoreTransitions
    else skip
  }

  // -------------------------------------------------------------------------------------
  // What the verdicts mean

  /** The profile itself can be a member: an ordinary outbound, or a custom one that parses. */
  predicate Buildable(p: Profile) {
    && p.hasOutbound && !p.extraCore && (p.kind == Plain || p.kind == CustomKind)
    && (p.kind == CustomKind ==> p.parses && (p.custom == CustomOutbound || p.custom == CustomXrayOutbound || p.custom == CustomXrayFullConfig))
  }

  predicate NameAllowed(p: Profile, f: Filters) {
    f.hasName ==> f.matches(p.name)
  }

  /** Without country filters any country; with one a known country, none that is excluded, and one of
      those included if there are any. */
  predicate CountryAllowed(p: Profile, f: Filters) {
    f.countries + f.excluded != {} ==> p.country != "" && p.country !in f.excluded && (f.countries == {} || p.country in f.countries)
  }

  /** The last test failed and its result has not expired. */
  predicate FailedLately(p: Profile, s: Settings, now: int) {
    p.latency < 0 && 0 < p.latency_at && 0 < s.resultValidityMins && now <= p.latency_at + 60 * s.resultValidityMins
  }

  /** A result counts until its validity runs out, and an expired one is no result. */
  lemma FreshUntil(p: Profile, s: Settings, now: int)
    ensures HasFreshResult(Some(p), s, now)
      <==> p.latency != 0 && p.latency_at > 0 && s.resultValidityMins > 0 && now <= p.latency_at + 60 * s.resultValidityMins
    ensures forall earlier :: earlier <= now && HasFreshResult(Some(p), s, now) ==> HasFreshResult(Some(p), s, earlier)
  {
  }

  /** A member is eligible if and only if nothing speaks against it ... */
  lemma EligibleExactly(p: Profile, s: Settings, now: int)
    ensures EligibilityOf(Some(p), s, now) == Eligible
      <==> Buildable(p) && NameAllowed(p, s.filters) && CountryAllowed(p, s.filters) && !(s.excludeUnavailable && FailedLately(p, s, now))
  {
    FreshUntil(p, s, now);
  }

  /** ... and every reason is given exactly under its condition. */
  lemma ReasonsExactly(p: Profile, s: Settings, now: int)
    ensures var v, plain := EligibilityOf(Some(p), s, now), p.hasOutbound && (p.kind == Plain || p.kind == CustomKind);
      && EligibilityOf(None, s, now) == Missing
      && (v == MetaType <==> p.hasOutbound && (p.kind == ChainKind || p.kind == AutoSelectorKind))
      && (v == Tailscale <==> p.hasOutbound && p.kind == TailscaleKind)
      && (v == ManagementEndpoint <==> p.hasOutbound && (p.kind == OpenVpn || p.kind == OpenConnect))
      && (v == ExtraCore <==> plain && p.extraCore)
      && (v == Missing <==> !p.hasOutbound || (plain && !p.extraCore && p.kind == CustomKind && p.custom == NoCustom))
      && (v == FullConfig <==> plain && !p.extraCore && p.kind == CustomKind && p.custom == CustomFullConfig)
      && (v == Malformed <==> plain && !p.extraCore && p.kind == CustomKind && p.custom != NoCustom && p.custom != CustomFullConfig && !p.parses)
      && (v == NameFilter <==> Buildable(p) && !NameAllowed(p, s.filters))
      && (v == CountryFilter <==> Buildable(p) && NameAllowed(p, s.filters) && !CountryAllowed(p, s.filters))
      && (v == Unavailable <==> Buildable(p) && NameAllowed(p, s.filters) && CountryAllowed(p, s.filters)
                                && s.excludeUnavailable && FailedLately(p, s, now))
  {
    FreshUntil(p, s, now);
  }

  predicate Present(m: Option<Profile>) {
    m.Some? && m.value.hasOutbound
  }

  lemma Hop(m: Option<Profile>, rest: seq<Option<Profile>>, inXray: bool)
    ensures Transitions([m] + rest, inXray)
      == if !Present(m) then Transitions(rest, inXray) else (if m.value.xray != inXray then 1 else 0) + Transitions(rest, m.value.xray)
  {
    assert ([m] + rest)[1..] == rest;
  }

  /** Three changes between the cores need all three hops: into Xray, out of it and back. */
  lemma TooManyTransitions(landing: Option<Profile>, m: Option<Profile>, front: Option<Profile>)
    ensures Transitions([landing, m, front], false) > 2
      <==> Present(landing) && Present(m) && Present(front) && landing.value.xray && !m.value.xray && front.value.xray
  {
    Hop(front, [], false);
    Hop(front, [], true);
    Hop(m, [front], false);
    Hop(m, [front], true);
    Hop(landing, [m, front], false);
    assert [landing] + [m, front] == [landing, m, front] && [m] + [front] == [m, front] && [front] + [] == [front];
  }

  /** The chain rules: what fails a member that is otherwise eligible or only unavailable. */
  lemma ChainExactly(p: Profile, g: Group, s: Settings, now: int)
    requires var own := EligibilityOf(Some(p), s, now); own == Eligible || own == Unavailable
    ensures var v := Verdict(Some(p), g, s, now);
      && (v == XrayFullChained <==>
            p.xrayFull && (g.front.Some? || (Present(g.landing) && (g.landing.value.xray || g.landing.value.xrayFull || g.landing.value.extraCore))))
      && (v == CoreTransitions <==>
            !p.xrayFull && !p.xray && Present(g.landing) && Present(g.front) && g.landing.value.xray && g.front.value.xray)
      && (v != XrayFullChained && v != CoreTransitions ==> v == EligibilityOf(Some(p), s, now))
  {
    TooManyTransitions(g.landing, Some(p), g.front);
    EligibleExactly(p, s, now);
    ReasonsExactly(p, s, now);
  }

  // -------------------------------------------------------------------------------------
  // Ranking by latency

  function LatencyRank(latency: int): nat {
    if latency > 0 then 0 else if latency == 0 then 1 else 2
  }

  predicate ByLatency(l: int, r: int) {
    if LatencyRank(l) != LatencyRank(r) then LatencyRank(l) < LatencyRank(r)
    else LatencyRank(l) == 0 && l < r
  }

  /** The comparison is a strict weak order, as std::stable_sort demands. */
  lemma StrictWeakOrder(a: int, b: int, c: int)
    ensures !ByLatency(a, a)
    ensures ByLatency(a, b) && ByLatency(b, c) ==> ByLatency(a, c)
    ensures !ByLatency(a, b) && !ByLatency(b, c) ==> !ByLatency(a, c)
  {
  }

  /** Measured members come first, the faster before the slower, then untested ones, then failed ones. */
  lemma MeasuredFirst(l: int, r: int)
    ensures ByLatency(l, r) <==> (l > 0 && (r <= 0 || l < r)) || (l == 0 && r < 0)
  {
  }

  type Latencies = int -> int

  function Insert(x: int, s: seq<int>, key: Latencies): seq<int> {
    if s == [] then [x]
    else if ByLatency(key(s[0]), key(x)) then [s[0]] + Insert(x, s[1..], key)
    else [x] + s
  }

  /** std::stable_sort by the comparison above. */
  function StableSort(s: seq<int>, key: Latencies): (r: seq<int>)
  {
    if s == [] then [] else Insert(s[0], StableSort(s[1..], key), key)
  }

  ghost predicate Ranked(s: seq<int>, key: Latencies) {
    forall i, j :: 0 <= i < j < |s| ==> !ByLatency(key(s[j]), key(s[i]))
  }

  /** The elements of s that rank exactly like the given latency. */
  function Peers(s: seq<int>, key: Latencies, v: int): seq<int> {
    if s == [] then []
    else if ByLatency(key(s[0]), v) || ByLatency(v, key(s[0])) then Peers(s[1..], key, v)
    else [s[0]] + Peers(s[1..], key, v)
  }

  lemma {:induction false} InsertRanked(x: int, s: seq<int>, key: Latencies)
    requires Ranked(s, key)
    ensures Ranked(Insert(x, s, key), key) && multiset(Insert(x, s, key)) == multiset(s) + multiset{x}
  {
    if s != [] {
      assert s == [s[0]] + s[1..];
      if ByLatency(key(s[0]), key(x)) {
        InsertRanked(x, s[1..], key);
        var t := Insert(x, s[1..], key);
        forall j | 0 <= j < |t|
          ensures !ByLatency(key(t[j]), key(s[0]))
        {
          assert t[j] in multiset(t);
          if t[j] != x { assert t[j] in s[1..]; }
        }
      } else {
        forall j | 0 <= j < |s|
          ensures !ByLatency(key(s[j]), key(x))
        {
          StrictWeakOrder(key(s[j]), key(s[0]), key(x));
        }
      }
    }
  }

  lemma {:induction false} InsertPeers(x: int, s: seq<int>, key: Latencies, v: int)
    ensures Peers(Insert(x, s, key), key, v) == Peers([x] + s, key, v)
  {
    assert ([x] + s)[1..] == s;
    if s != [] && ByLatency(key(s[0]), key(x)) {
      InsertPeers(x, s[1..], key, v);
      assert ([x] + s[1..])[1..] == s[1..];
      assert ([s[0]] + Insert(x, s[1..], key))[1..] == Insert(x, s[1..], key);
    }
  }

  /** The result is ranked, a permutation, and keeps the order of members that rank alike. */
  lemma {:induction false} SortIsStable(s: seq<int>, key: Latencies)
    ensures Ranked(StableSort(s, key), key) && multiset(StableSort(s, key)) == multiset(s)
    ensures forall v :: Peers(StableSort(s, key), key, v) == Peers(s, key, v)
  {
    if s != [] {
      SortIsStable(s[1..], key);
      var t := StableSort(s[1..], key);
      InsertRanked(s[0], t, key);
      assert s == [s[0]] + s[1..];
      forall v
        ensures Peers(StableSort(s, key), key, v) == Peers(s, key, v)
      {
        InsertPeers(s[0], t, key, v);
        assert ([s[0]] + t)[1..] == t;
      }
    }
  }

  /** So in a sorted list nothing measured stands behind anything slower, untested or failed, and nothing
      untested behind anything failed. */
  lemma SortedByLatency(s: seq<int>, key: Latencies, i: nat, j: nat)
    requires i < j < |StableSort(s, key)|
    ensures var t := StableSort(s, key);
      && (key(t[j]) > 0 ==> 0 < key(t[i]) <= key(t[j])) && (key(t[j]) == 0 ==> key(t[i]) >= 0)
  {
    SortIsStable(s, key);
    MeasuredFirst(key(StableSort(s, key)[j]), key(StableSort(s, key)[i]));
  }

  function HeadKey(s: seq<int>, key: Latencies): int {
    if s == [] then 0 else key(s[0])
  }

  /** A stable sort has one possible result: ranked lists whose members rank alike in the same order
      are the same list. */
  lemma {:induction false} StableIsUnique(a: seq<int>, b: seq<int>, key: Latencies)
    requires Ranked(a, key) && Ranked(b, key)
    requires forall v :: Peers(a, key, v) == Peers(b, key, v)
    ensures a == b
  {
    if a == [] {
      assert Peers(a, key, HeadKey(b, key)) == Peers(b, key, HeadKey(b, key));
    } else {
      var v := key(a[0]);
      assert Peers(a, key, v) == Peers(b, key, v);
      PeersBelong(b, key, v);
      PeersBelong(a, key, key(b[0]));
      assert Peers(a, key, key(b[0])) == Peers(b, key, key(b[0]));
      assert a[0] in Peers(a, key, v);
      assert b[0] in Peers(b, key, key(b[0]));
      assert Peers(b, key, v)[0] == b[0];
      forall u
        ensures Peers(a[1..], key, u) == Peers(b[1..], key, u)
      {
        assert Peers(a, key, u) == Peers(b, key, u);
        if !ByLatency(v, u) && !ByLatency(u, v) {
          assert ([a[0]] + Peers(a[1..], key, u))[1..] == Peers(a[1..], key, u);
          assert ([b[0]] + Peers(b[1..], key, u))[1..] == Peers(b[1..], key, u);
        }
      }
      StableIsUnique(a[1..], b[1..], key);
    }
  }

  lemma {:induction false} PeersBelong(s: seq<int>, key: Latencies, v: int)
    ensures forall x :: x in Peers(s, key, v) <==> x in s && !ByLatency(key(x), v) && !ByLatency(v, key(x))
  {
    if s != [] {
      PeersBelong(s[1..], key, v);
      assert s == [s[0]] + s[1..];
    }
  }

  lemma SortElements(s: seq<int>, key: Latencies)
    ensures |StableSort(s, key)| == |s|
    ensures forall x :: x in StableSort(s, key) <==> x in s
  {
    hide Ranked, Peers;
    SortIsStable(s, key);
    var t := StableSort(s, key);
    assert |multiset(t)| == |multiset(s)|;
    forall x
      ensures x in t <==> x in s
    {
      assert x in multiset(t) <==> x in multiset(s);
    }
  }

  /** Only the latencies of the listed members matter to a sort. */
  lemma {:induction false} SameKeys(s: seq<int>, key: Latencies, other: Latencies)
    requires forall i :: 0 <= i < |s| ==> key(s[i]) == other(s[i])
    ensures StableSort(s, key) == StableSort(s, other)
  {
    if s != [] {
      SameKeys(s[1..], key, other);
      var t := StableSort(s[1..], key);
      forall i | 0 <= i < |t|
        ensures key(t[i]) == other(t[i])
      {
        SortElements(s[1..], key);
        var x := t[i];
        assert x in t;
        assert x in s[1..];
      }
      SameInsert(s[0], t, key, other);
    }
  }

  lemma {:induction false} SameInsert(x: int, s: seq<int>, key: Latencies, other: Latencies)
    requires key(x) == other(x)
    requires forall i :: 0 <= i < |s| ==> key(s[i]) == other(s[i])
    ensures Insert(x, s, key) == Insert(x, s, other)
  {
    if s != [] {
      SameInsert(x, s[1..], key, other);
    }
  }
}
