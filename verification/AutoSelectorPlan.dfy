/** Which members of the tracked groups an auto selector plans with, in which order, and what a
    re-ranking leaves for the next plan. */
module AutoSelectorPlan {
  import opened AutoSelector
  import opened Lists
  import opened Wrappers

  // -------------------------------------------------------------------------------------
  // Tracked groups and their members

  /** The tracked groups that still exist. */
  function Existing(groups: map<int, Group>, gids: seq<int>): seq<Group> {
    if gids == [] then []
    else
      var n := |gids| - 1;
      Existing(groups, gids[..n]) + if gids[n] in groups then [groups[gids[n]]] else []
  }

  function Listed(groups: seq<Group>): seq<int> {
    if groups == [] then []
    else Listed(groups[..|groups| - 1]) + groups[|groups| - 1].profiles
  }

  /** The group a member is judged with: the first one that lists it. */
  function Home(groups: seq<Group>, id: int): Group
    requires id in Listed(groups)
  {
    var n := |groups| - 1;
    if id in Listed(groups[..n]) then Home(groups[..n], id) else groups[n]
  }

  /** The profiles of the existing groups except the selector itself, each once. */
  function Candidates(groups: seq<Group>, self: int): (r: seq<int>)
    ensures forall x :: x in r <==> x in Listed(groups) && x != self
    ensures forall i, j :: 0 <= i < j < |r| ==> r[i] != r[j]
  {
    Firsts(Listed(groups), Elements(Listed(groups)) - {self})
  }

  function Lookup(profiles: map<int, Profile>, id: int): (m: Option<Profile>)
    ensures m.Some? <==> id in profiles
    ensures id in profiles ==> m.value == profiles[id]
  {
    if id in profiles then Some(profiles[id]) else None
  }

  /** The database at one moment and the settings members are judged by. */
  datatype Snapshot = Snapshot(profiles: map<int, Profile>, groups: map<int, Group>, s: Settings, now: int)

  function Judge(w: Snapshot, groups: seq<Group>, id: int): Skip {
    if id in Listed(groups) then Verdict(Lookup(w.profiles, id), Home(groups, id), w.s, w.now) else Missing
  }

  /** The members of c with the given verdict, in order. */
  function Judged(w: Snapshot, groups: seq<Group>, c: seq<int>, v: Skip): (r: seq<int>)
    ensures forall x :: x in r <==> x in c && Judge(w, groups, x) == v
    ensures |r| <= |c|
  {
    if c == [] then []
    else
      var n := |c| - 1;
      var r := Judged(w, groups, c[..n], v);
      assert c == c[..n] + [c[n]];
      if Judge(w, groups, c[n]) == v then r + [c[n]] else r
  }

  lemma {:induction false} JudgedDistinct(w: Snapshot, groups: seq<Group>, c: seq<int>, v: Skip)
    requires forall i, j :: 0 <= i < j < |c| ==> c[i] != c[j]
    ensures forall i, j :: 0 <= i < j < |Judged(w, groups, c, v)| ==> Judged(w, groups, c, v)[i] != Judged(w, groups, c, v)[j]
  {
    if c != [] {
      var n := |c| - 1;
      JudgedDistinct(w, groups, c[..n], v);
      var r := Judged(w, groups, c[..n], v);
      forall i | 0 <= i < |r|
        ensures r[i] != c[n]
      {
        var x := r[i];
        assert x in r;
        assert x in c[..n];
      }
    }
  }

  /** The members a plan uses: the eligible candidates; if there are none, those only excluded by a
      failed test. */
  function Members(w: Snapshot, gids: seq<int>, self: int): seq<int> {
    var groups := Existing(w.groups, gids);
    var c := Candidates(groups, self);
    var eligible := Judged(w, groups, c, Eligible);
    if eligible == [] then Judged(w, groups, c, Unavailable) else eligible
  }

  lemma MembersDistinct(w: Snapshot, gids: seq<int>, self: int)
    ensures var m := Members(w, gids, self); forall i, j :: 0 <= i < j < |m| ==> m[i] != m[j]
    ensures self !in Members(w, gids, self)
  {
    var groups := Existing(w.groups, gids);
    var c := Candidates(groups, self);
    JudgedDistinct(w, groups, c, Eligible);
    JudgedDistinct(w, groups, c, Unavailable);
  }

  /** The latency a member is ranked by; 0 stands for "no fresh result". */
  function Effective(w: Snapshot, id: int): int {
    var m := Lookup(w.profiles, id);
    if HasFreshResult(m, w.s, w.now) then m.value.latency else 0
  }

  /** The latency members are ranked by is that of a result that still counts, and 0 otherwise. */
  lemma EffectiveLatency(w: Snapshot, id: int)
    ensures Effective(w, id) == if id in w.profiles && w.profiles[id].latency_at > 0 && w.s.resultValidityMins > 0
                                   && w.now <= w.profiles[id].latency_at + 60 * w.s.resultValidityMins then w.profiles[id].latency else 0
  {
    if id in w.profiles { FreshUntil(w.profiles[id], w.s, w.now); }
  }

  function Tested(w: Snapshot, s: seq<int>): nat {
    if s == [] then 0
    else Tested(w, s[..|s| - 1]) + if Effective(w, s[|s| - 1]) > 0 then 1 else 0
  }

  lemma TestedStep(w: Snapshot, s: seq<int>, x: int)
    ensures Tested(w, s + [x]) == Tested(w, s) + if Effective(w, x) > 0 then 1 else 0
  {
    assert (s + [x])[..|s|] == s;
  }

  lemma FailedIsUntested(w: Snapshot, groups: seq<Group>, id: int)
    requires Judge(w, groups, id) == Unavailable
    ensures Effective(w, id) <= 0
  {
    hide Listed, Home, Transitions, XrayFullConfigFitsChain;
  }

  lemma JudgedStep(w: Snapshot, groups: seq<Group>, c: seq<int>, id: int, v: Skip)
    ensures Judged(w, groups, c + [id], v)
         == Judged(w, groups, c, v) + if Judge(w, groups, id) == v then [id] else []
  {
    assert (c + [id])[..|c|] == c;
  }

  /** A member excluded by a failed test is never ranked by a success. */
  lemma {:induction false} FailedAreUntested(w: Snapshot, groups: seq<Group>, c: seq<int>)
    ensures Tested(w, Judged(w, groups, c, Unavailable)) == 0
  {
    if c != [] {
      hide Judged, Judge, Effective, Tested;
      var n := |c| - 1;
      FailedAreUntested(w, groups, c[..n]);
      assert c[..n] + [c[n]] == c;
      JudgedStep(w, groups, c[..n], c[n], Unavailable);
      if Judge(w, groups, c[n]) == Unavailable {
        FailedIsUntested(w, groups, c[n]);
        TestedStep(w, Judged(w, groups, c[..n], Unavailable), c[n]);
      } else {
        assert Judged(w, groups, c[..n], Unavailable) + [] == Judged(w, groups, c[..n], Unavailable);
      }
    }
  }

  lemma {:induction false} ExistingStep(groups: map<int, Group>, gids: seq<int>, i: nat)
    requires i < |gids|
    ensures Existing(groups, gids[..i + 1])
         == Existing(groups, gids[..i]) + if gids[i] in groups then [groups[gids[i]]] else []
  {
    assert gids[..i + 1][..i] == gids[..i];
  }

  lemma {:induction false} ListedStep(groups: seq<Group>, i: nat)
    requires i < |groups|
    ensures Listed(groups[..i + 1]) == Listed(groups[..i]) + groups[i].profiles
  {
    assert groups[..i + 1][..i] == groups[..i];
  }

  lemma {:induction false} ListedGrows(groups: seq<Group>, i: nat)
    requires i <= |groups|
    ensures forall x :: x in Listed(groups[..i]) ==> x in Listed(groups)
    decreases |groups| - i
  {
    if i < |groups| {
      ListedStep(groups, i);
      ListedGrows(groups, i + 1);
    } else {
      assert groups[..i] == groups;
    }
  }

  /** Later groups do not change which group a member is judged with. */
  lemma {:induction false} HomeStays(groups: seq<Group>, i: nat, id: int)
    requires i < |groups| && id !in Listed(groups[..i]) && id in groups[i].profiles
    ensures id in Listed(groups) && Home(groups, id) == groups[i]
    decreases |groups|
  {
    var n := |groups| - 1;
    if i < n {
      assert groups[..n][..i] == groups[..i];
      HomeStays(groups[..n], i, id);
    } else {
      assert groups[..n] == groups[..i];
    }
  }

  datatype PlanError = NoError | NoGroupTracked | GroupsGone | NoUsableMembers

  /** What `eligibleMembers` writes into the plan; `skips` counts the skipped members by reason. */
  datatype Census = Census(error: PlanError, membersInGroups: nat, missingGroups: nat, rankedByTest: nat,
                           keptUnavailable: nat, skips: multiset<Skip>)

  /** Every reason counts the members judged so; `held` says whether failed tests are among them. */
  ghost predicate Counts(w: Snapshot, groups: seq<Group>, c: seq<int>, held: bool, skips: multiset<Skip>) {
    forall v :: skips[v] == if v == Eligible || (v == Unavailable && !held) then 0 else |Judged(w, groups, c, v)|
  }

  lemma CountsStep(w: Snapshot, groups: seq<Group>, c: seq<int>, id: int, skips: multiset<Skip>)
    requires Counts(w, groups, c, false, skips)
    ensures var v := Judge(w, groups, id);
            Counts(w, groups, c + [id], false, if v == Eligible || v == Unavailable then skips else skips + multiset{v})
  {
    hide Judged, Judge;
    forall v
      ensures Judged(w, groups, c + [id], v) == Judged(w, groups, c, v) + if Judge(w, groups, id) == v then [id] else []
    {
      JudgedStep(w, groups, c, id, v);
    }
  }

  /** The state of the walk over all members of all groups once those in `done` have been seen. */
  ghost predicate Tally(w: Snapshot, groups: seq<Group>, self: int, done: seq<int>, seen: set<int>, members: seq<int>,
                        unavailable: seq<int>, census: Census) {
    var c := Firsts(done, Elements(Listed(groups)) - {self});
    && seen == Elements(c)
    && members == Judged(w, groups, c, Eligible) && unavailable == Judged(w, groups, c, Unavailable)
    && census.membersInGroups == |c| == |members| + |unavailable| + |census.skips|
    && census.rankedByTest == Tested(w, members)
    && Counts(w, groups, c, false, census.skips)
  }

  lemma TallyStart(w: Snapshot, groups: seq<Group>, self: int, census: Census)
    requires census.membersInGroups == census.rankedByTest == 0 && census.skips == multiset{}
    ensures Tally(w, groups, self, Listed(groups[..0]), {}, [], [], census)
  {
  }

  lemma TallyRepeat(w: Snapshot, groups: seq<Group>, self: int, done: seq<int>, seen: set<int>, members: seq<int>,
                    unavailable: seq<int>, census: Census, id: int)
    requires Tally(w, groups, self, done, seen, members, unavailable, census)
    requires id == self || id in seen
    ensures Tally(w, groups, self, done + [id], seen, members, unavailable, census)
  {
    hide Judged, Counts, Tested, Listed, Firsts;
    FirstsStep(done, id, Elements(Listed(groups)) - {self});
  }

  /** What the walk counts for a member it has not seen before. */
  ghost function Counted(w: Snapshot, v: Skip, id: int, census: Census): Census {
    census.(membersInGroups := census.membersInGroups + 1,
            rankedByTest := census.rankedByTest + if v == Eligible && Effective(w, id) > 0 then 1 else 0,
            skips := if v == Eligible || v == Unavailable then census.skips else census.skips + multiset{v})
  }

  lemma TallyNew(w: Snapshot, groups: seq<Group>, self: int, done: seq<int>, seen: set<int>, members: seq<int>,
                 unavailable: seq<int>, census: Census, id: int, v: Skip)
    requires Tally(w, groups, self, done, seen, members, unavailable, census)
    requires id in Listed(groups) && id != self && id !in seen
    requires v == Judge(w, groups, id)
    ensures Tally(w, groups, self, done + [id], seen + {id}, members + (if v == Eligible then [id] else []),
                  unavailable + (if v == Unavailable then [id] else []), Counted(w, v, id, census))
  {
    hide Judged, Judge, Counts, Tested, Listed, Firsts, Effective;
    var wanted := Elements(Listed(groups)) - {self};
    var c := Firsts(done, wanted);
    FirstsStep(done, id, wanted);
    assert id !in c;
    assert Elements(c + [id]) == Elements(c) + {id};
    JudgedStep(w, groups, c, id, Eligible);
    JudgedStep(w, groups, c, id, Unavailable);
    CountsStep(w, groups, c, id, census.skips);
    TestedStep(w, members, id);
    assert members + [] == members && unavailable + [] == unavailable;
  }

  /** The walk over the groups: members to use, members whose last test failed, and the counts. */
  method JudgeGroups(w: Snapshot, self: int, groups: seq<Group>, start: Census)
    returns (members: seq<int>, unavailable: seq<int>, census: Census)
    requires start.membersInGroups == start.rankedByTest == 0 && start.skips == multiset{}
    ensures var c := Candidates(groups, self);
            && members == Judged(w, groups, c, Eligible) && unavailable == Judged(w, groups, c, Unavailable)
            && census.membersInGroups == |c| == |members| + |unavailable| + |census.skips|
            && census.rankedByTest == Tested(w, members) && Counts(w, groups, c, false, census.skips)
    ensures census.error == start.error && census.missingGroups == start.missingGroups && census.keptUnavailable == start.keptUnavailable
  {
    hide Judged, Judge, Counts, Tested, Listed, Firsts, Effective, Verdict, EligibilityOf, Elements, Home;
    members, unavailable, census := [], [], start;
    var seen: set<int> := {};
    TallyStart(w, groups, self, census);
    for i := 0 to |groups|
      invariant Tally(w, groups, self, Listed(groups[..i]), seen, members, unavailable, census)
      invariant SameGroups(start, census)
    {
      var group := groups[i];
      ListedStep(groups, i);
      assert Listed(groups[..i]) + group.profiles[..0] == Listed(groups[..i]);
      for j := 0 to |group.profiles|
        invariant Tally(w, groups, self, Listed(groups[..i]) + group.profiles[..j], seen, members, unavailable, census)
        invariant SameGroups(start, census)
      {
        members, unavailable, seen, census := JudgeMember(w, self, groups, i, j, members, unavailable, seen, census);
        assert Listed(groups[..i]) + group.profiles[..j + 1] == Listed(groups[..i]) + group.profiles[..j] + [group.profiles[j]];
      }
      assert group.profiles[..|group.profiles|] == group.profiles;
    }
    assert groups[..|groups|] == groups;
  }

  predicate SameGroups(a: Census, b: Census) {
    a.error == b.error && a.missingGroups == b.missingGroups && a.keptUnavailable == b.keptUnavailable
  }

  /** The plan's statistics and members; failed members are kept when they are all there is. */
  method EligibleMembers(w: Snapshot, self: int, gids: seq<int>) returns (members: seq<int>, census: Census)
    ensures members == Members(w, gids, self)
    ensures census.error == (if gids == [] then NoGroupTracked else if Existing(w.groups, gids) == [] then GroupsGone else NoError)
    ensures census.missingGroups + |Existing(w.groups, gids)| == |gids|
    ensures census.membersInGroups == |Candidates(Existing(w.groups, gids), self)|
    ensures |members| + |census.skips| == census.membersInGroups
    ensures census.rankedByTest == Tested(w, members)
    ensures var g := Existing(w.groups, gids);
            var c := Candidates(g, self);
            var none := Judged(w, g, c, Eligible) == [];
            && census.keptUnavailable == (if none then |members| else 0) && Counts(w, g, c, !none, census.skips)
  {
    members := [];
    census := Census(NoError, 0, 0, 0, 0, multiset{});
    if gids == [] {
      census := census.(error := NoGroupTracked);
      return;
    }
    var groups: seq<Group> := [];
    for i := 0 to |gids|
      invariant groups == Existing(w.groups, gids[..i]) && |groups| <= i
      invariant census == Census(NoError, 0, i - |groups|, 0, 0, multiset{})
    {
      ExistingStep(w.groups, gids, i);
      if gids[i] in w.groups {
        groups := groups + [w.groups[gids[i]]];
      } else {
        census := census.(missingGroups := census.missingGroups + 1);
      }
    }
    assert gids[..|gids|] == gids;
    if groups == [] {
      census := census.(error := GroupsGone);
      return;
    }
    hide Judged, Tested, Firsts, Candidates;
    var unavailable;
    members, unavailable, census := JudgeGroups(w, self, groups, census);
    FailedAreUntested(w, groups, Candidates(groups, self));
    if members == [] && unavailable != [] {
      members := unavailable;
      census := census.(keptUnavailable := |unavailable|);
    } else if unavailable != [] {
      census := census.(skips := census.skips[Unavailable := census.skips[Unavailable] + |unavailable|]);
    }
  }

  /** One profile of one group. */
  method JudgeMember(w: Snapshot, self: int, groups: seq<Group>, i: nat, j: nat, members0: seq<int>, unavailable0: seq<int>,
                     seen0: set<int>, census0: Census)
    returns (members: seq<int>, unavailable: seq<int>, seen: set<int>, census: Census)
    requires i < |groups| && j < |groups[i].profiles|
    requires Tally(w, groups, self, Listed(groups[..i]) + groups[i].profiles[..j], seen0, members0, unavailable0, census0)
    ensures Tally(w, groups, self, Listed(groups[..i]) + groups[i].profiles[..j] + [groups[i].profiles[j]], seen, members, unavailable, census)
    ensures SameGroups(census0, census)
  {
    hide Judged, Counts, Tested, Listed, EligibilityOf, HasFreshResult, Transitions, Firsts;
    members, unavailable, seen, census := members0, unavailable0, seen0, census0;
    var group := groups[i];
    var id := group.profiles[j];
    ghost var done := Listed(groups[..i]) + group.profiles[..j];
    if id == self || id in seen {
      TallyRepeat(w, groups, self, done, seen, members, unavailable, census, id);
      return;
    }
    FirstHome(groups, self, i, j, seen0, Firsts(done, Elements(Listed(groups)) - {self}));
    var member := Lookup(w.profiles, id);
    ghost var v := Judge(w, groups, id);
    assert v == Verdict(member, group, w.s, w.now);
    TallyNew(w, groups, self, done, seen, members, unavailable, census, id, v);
    seen := seen + {id};
    census := census.(membersInGroups := census.membersInGroups + 1);
    hide Tally, Judge;
    var skip := EligibilityOf(member, w.s, w.now);
    EligibleExists(member, w.s, w.now);
    if skip != Eligible && skip != Unavailable {
      census := census.(skips := census.skips + multiset{skip});
    } else if member.value.xrayFull && !XrayFullConfigFitsChain(group.landing, group.front) {
      census := census.(skips := census.skips + multiset{XrayFullChained});
    } else if !member.value.xrayFull && Transitions([group.landing, member, group.front], false) > 2 {
      census := census.(skips := census.skips + multiset{CoreTransitions});
    } else if skip == Unavailable {
      unavailable := unavailable + [id];
    } else {
      members := members + [id];
      if Effective(w, id) > 0 {
        census := census.(rankedByTest := census.rankedByTest + 1);
      }
    }
    assert members0 + [] == members0 && unavailable0 + [] == unavailable0;
  }

  lemma EligibleExists(m: Option<Profile>, s: Settings, now: int)
    ensures EligibilityOf(m, s, now) in {Eligible, Unavailable} ==> m.Some?
  {
  }

  /** A member seen for the first time is judged with the group it is seen in. */
  lemma FirstHome(groups: seq<Group>, self: int, i: nat, j: nat, seen: set<int>, c: seq<int>)
    requires i < |groups| && j < |groups[i].profiles|
    requires c == Firsts(Listed(groups[..i]) + groups[i].profiles[..j], Elements(Listed(groups)) - {self})
    requires seen == Elements(c) && groups[i].profiles[j] != self && groups[i].profiles[j] !in seen
    ensures var id := groups[i].profiles[j]; id in Listed(groups) && Home(groups, id) == groups[i]
  {
    hide Firsts, Listed, Home;
    var id := groups[i].profiles[j];
    ListedStep(groups, i);
    ListedGrows(groups, i + 1);
    assert id in groups[i].profiles;
    assert id in Listed(groups[..i + 1]);
    assert id in Listed(groups);
    assert id !in c;
    HomeStays(groups, i, id);
  }

  // -------------------------------------------------------------------------------------
  // Ordering

  /** The latency each member is sorted by; `untrusted` members count as untested. */
  function RankKey(w: Snapshot, untrusted: set<int>): Latencies {
    (id: int) => if id in untrusted then 0 else Effective(w, id)
  }

  /** `sortByLatency`: every latency is read once, then one stable sort. */
  method SortByLatency(w: Snapshot, ids: seq<int>, untrusted: set<int>) returns (sorted: seq<int>)
    ensures sorted == StableSort(ids, RankKey(w, untrusted))
  {
    var latency: map<int, int> := map[];
    for i := 0 to |ids|
      invariant forall j :: 0 <= j < i ==> ids[j] in latency
      invariant forall x :: x in latency ==> latency[x] == RankKey(w, untrusted)(x)
    {
      latency := latency[ids[i] := if ids[i] in untrusted then 0 else Effective(w, ids[i])];
    }
    var read: Latencies := (id: int) => if id in latency then latency[id] else 0;
    sorted := StableSort(ids, read);
    SameKeys(ids, read, RankKey(w, untrusted));
  }

  /** The persisted order first, then the newcomers by latency. */
  function Ordered(members: seq<int>, persisted: seq<int>, key: Latencies): seq<int> {
    var kept := Firsts(persisted, Elements(members));
    kept + StableSort(Without(members, Elements(kept)), key)
  }

  method OrderMembers(w: Snapshot, members: seq<int>, persistedPool: seq<int>) returns (ordered: seq<int>)
    ensures ordered == Ordered(members, persistedPool, RankKey(w, {}))
  {
    ordered := [];
    ghost var eligible := Elements(members);
    for i := 0 to |persistedPool|
      invariant ordered == Firsts(persistedPool[..i], eligible)
    {
      var id := persistedPool[i];
      FirstsStep(persistedPool[..i], id, eligible);
      assert persistedPool[..i + 1] == persistedPool[..i] + [id];
      if id in members && id !in ordered {
        ordered := ordered + [id];
      }
    }
    assert persistedPool[..|persistedPool|] == persistedPool;
    ghost var placed := Elements(ordered);
    var newcomers: seq<int> := [];
    for i := 0 to |members|
      invariant newcomers == Without(members[..i], placed)
    {
      assert members[..i + 1][..i] == members[..i];
      if members[i] !in ordered {
        newcomers := newcomers + [members[i]];
      }
    }
    assert members[..|members|] == members;
    var sorted := SortByLatency(w, newcomers, {});
    ordered := ordered + sorted;
  }

  /** Ordering neither loses nor invents a member: the result is a permutation. */
  lemma OrderedIsPermutation(members: seq<int>, persisted: seq<int>, key: Latencies)
    requires forall i, j :: 0 <= i < j < |members| ==> members[i] != members[j]
    ensures multiset(Ordered(members, persisted, key)) == multiset(members)
    ensures |Ordered(members, persisted, key)| == |members|
  {
    var kept := Firsts(persisted, Elements(members));
    var late := Without(members, Elements(kept));
    hide Firsts, Without, Ranked, Peers, StableSort;
    forall x
      ensures multiset(kept + StableSort(late, key))[x] == multiset(members)[x]
    {
      SortIsStable(late, key);
      WithoutCounts(members, Elements(kept), x);
      DistinctCounts(kept, x);
      DistinctCounts(members, x);
    }
    assert multiset(kept + StableSort(late, key)) == multiset(members);
    assert |multiset(members)| == |members|;
    assert |multiset(Ordered(members, persisted, key))| == |Ordered(members, persisted, key)|;
  }

  /** What the order promises: surviving persisted members come first in their persisted order, and the
      newcomers behind them are ranked by latency, alike ones in the order of their groups. */
  lemma OrderedKeepsPrior(members: seq<int>, persisted: seq<int>, key: Latencies, i: nat, j: nat)
    requires i < j < |Ordered(members, persisted, key)|
    ensures var r := Ordered(members, persisted, key);
            && (r[j] in persisted ==> r[i] in persisted && FirstAt(persisted, r[i]) < FirstAt(persisted, r[j]))
            && (r[i] !in persisted ==> !ByLatency(key(r[j]), key(r[i])))
    ensures var kept := Firsts(persisted, Elements(members));
            && Ordered(members, persisted, key)[..|kept|] == kept
            && forall v :: Peers(Ordered(members, persisted, key)[|kept|..], key, v) == Peers(Without(members, Elements(kept)), key, v)
  {
    var kept := Firsts(persisted, Elements(members));
    var late := Without(members, Elements(kept));
    var sorted := StableSort(late, key);
    var r := Ordered(members, persisted, key);
    hide Firsts, Without, Peers, StableSort;
    assert r == kept + sorted;
    assert r[|kept|..] == sorted;
    SortIsStable(late, key);
    SortElements(late, key);
    if j < |kept| {
      FirstsInOrder(persisted, Elements(members), i, j);
    } else {
      var y := r[j];
      assert y in sorted;
      assert y in late;
      if i < |kept| {
        assert r[i] in kept;
      }
    }
  }

  // -------------------------------------------------------------------------------------
  // The selector

  const MAX_POOL_CAP := 3000
  const MAX_BUILD_LIMIT := 500

  function Clamp(x: int, low: int, high: int): int
    requires low <= high
  {
    if x < low then low else if x > high then high else x
  }

  /** The nearest number of the range. */
  lemma ClampNearest(x: int, low: int, high: int, y: int)
    requires low <= y <= high
    ensures low <= Clamp(x, low, high) <= high
    ensures (if Clamp(x, low, high) < x then x - Clamp(x, low, high) else Clamp(x, low, high) - x) <= (if y < x then x - y else y - x)
  {
  }

  /** The groups that stay tracked: no negative number, each once. */
  function Tracked(gids: seq<int>): seq<int> {
    Firsts(gids, set g | g in gids && g >= 0)
  }

  /** QList::mid(0, n): a negative length takes everything. */
  function Mid(s: seq<int>, n: int): (r: seq<int>)
    ensures r <= s && |r| == if n < 0 || n >= |s| then |s| else n
  {
    if n < 0 || n >= |s| then s else s[..n]
  }

  function Reranked(members: seq<int>, poolCap: int, key: Latencies): seq<int> {
    var sorted := StableSort(members, key);
    if |sorted| > poolCap then Mid(sorted, poolCap) else sorted
  }

  function PlannedPool(members: seq<int>, persisted: seq<int>, poolCap: int, key: Latencies): seq<int>
    requires poolCap >= 1
  {
    var ordered := Ordered(members, persisted, key);
    if |ordered| > poolCap then ordered[..poolCap] else ordered
  }

  datatype Plan = Plan(pool: seq<int>, build: seq<int>, census: Census, eligible: nat, truncated: bool,
                       poolCapUsed: int, buildLimitUsed: int, needsRanking: bool)

  ghost predicate Keeps(groups: map<int, Group>, gids: seq<int>, keep: set<int>) {
    forall i :: 0 <= i < |gids| && gids[i] in groups ==> gids[i] in keep
  }

  /** The groups one more tracked number adds. */
  function Added(groups: map<int, Group>, gid: int): seq<Group> {
    if gid in groups then [groups[gid]] else []
  }

  lemma ExistingLast(groups: map<int, Group>, gids: seq<int>, gid: int)
    ensures Existing(groups, gids + [gid]) == Existing(groups, gids) + Added(groups, gid)
  {
    assert (gids + [gid])[..|gids|] == gids;
  }

  lemma ListedLast(groups: seq<Group>, g: Group)
    ensures Listed(groups + [g]) == Listed(groups) + g.profiles
    ensures forall id :: id in Listed(groups) ==> id in Listed(groups + [g]) && Home(groups + [g], id) == Home(groups, id)
    ensures forall id :: id in g.profiles && id !in Listed(groups) ==> id in Listed(groups + [g]) && Home(groups + [g], id) == g
  {
    assert (groups + [g])[..|groups|] == groups;
  }

  lemma {:induction false} ListedWithGroup(groups: map<int, Group>, gids: seq<int>, gid: int, x: int)
    requires gid in gids && gid in groups && x in groups[gid].profiles
    ensures x in Listed(Existing(groups, gids))
  {
    hide Listed, Existing;
    var n := |gids| - 1;
    assert gids == gids[..n] + [gids[n]];
    ExistingLast(groups, gids[..n], gids[n]);
    var before := Existing(groups, gids[..n]);
    if gid in gids[..n] { ListedWithGroup(groups, gids[..n], gid, x); }
    if gids[n] in groups {
      ListedLast(before, groups[gids[n]]);
    } else {
      assert before + [] == before;
    }
  }

  /** What dropping a repeated or a dead number leaves: the same tracked groups, or one group less
      whose members are all listed before. */
  lemma TrackedStep(groups: map<int, Group>, gids: seq<int>, gid: int, keep: set<int>)
    requires Keeps(groups, gids + [gid], keep)
    ensures var prior, next := Firsts(gids, keep), Firsts(gids + [gid], keep);
            || Existing(groups, next) == Existing(groups, prior) + Added(groups, gid)
            || (next == prior && gid in groups && forall i :: 0 <= i < |groups[gid].profiles| ==> groups[gid].profiles[i] in Listed(Existing(groups, prior)))
  {
    hide Listed, Existing, Firsts;
    FirstsStep(gids, gid, keep);
    var prior := Firsts(gids, keep);
    if gid in keep && gid !in prior {
      ExistingLast(groups, prior, gid);
    } else if gid in groups {
      assert (gids + [gid])[|gids|] == gid;
      assert gid in prior;
      forall i | 0 <= i < |groups[gid].profiles|
        ensures groups[gid].profiles[i] in Listed(Existing(groups, prior))
      {
        ListedWithGroup(groups, prior, gid, groups[gid].profiles[i]);
      }
    } else {
      assert Existing(groups, prior) + [] == Existing(groups, prior);
    }
  }

  lemma {:induction false} SameFirsts(groups: map<int, Group>, gids: seq<int>, keep: set<int>, wanted: set<int>)
    requires Keeps(groups, gids, keep)
    ensures Firsts(Listed(Existing(groups, Firsts(gids, keep))), wanted) == Firsts(Listed(Existing(groups, gids)), wanted)
  {
    if gids != [] {
      var n := |gids| - 1;
      var g, before := gids[n], gids[..n];
      assert gids == before + [g];
      hide Listed, Existing, Firsts;
      SameFirsts(groups, before, keep, wanted);
      TrackedStep(groups, before, g, keep);
      ExistingLast(groups, before, g);
      var a, b := Existing(groups, Firsts(before, keep)), Existing(groups, before);
      if g in groups {
        var p := groups[g].profiles;
        ListedLast(a, groups[g]);
        ListedLast(b, groups[g]);
        FirstsExtend(Listed(a), Listed(b), p, wanted);
        if Existing(groups, Firsts(gids, keep)) != a + [groups[g]] {
          FirstsRepeat(Listed(a), p, wanted);
        }
      } else {
        assert a + [] == a && b + [] == b;
      }
    }
  }

  /** Both lists of groups hold the same members. */
  lemma SameListing(groups: map<int, Group>, gids: seq<int>, keep: set<int>, x: int)
    requires Keeps(groups, gids, keep)
    ensures x in Listed(Existing(groups, Firsts(gids, keep))) <==> x in Listed(Existing(groups, gids))
  {
    var a, b := Listed(Existing(groups, Firsts(gids, keep))), Listed(Existing(groups, gids));
    hide Firsts, Listed, Existing;
    SameFirsts(groups, gids, keep, {x});
    assert x in Firsts(a, {x}) <==> x in a;
    assert x in Firsts(b, {x}) <==> x in b;
  }

  lemma SameHomeStep(a: seq<Group>, b: seq<Group>, g: Group, id: int)
    requires id in Listed(a) <==> id in Listed(b)
    requires id in Listed(a) ==> Home(a, id) == Home(b, id)
    requires id in Listed(b + [g])
    ensures id in Listed(a + [g]) && Home(a + [g], id) == Home(b + [g], id)
    ensures id in Listed(a) ==> Home(a, id) == Home(b + [g], id)
    ensures id in Listed(b) || id in g.profiles
  {
    ListedLast(a, g);
    ListedLast(b, g);
    hide Listed, Home;
    assert id in Listed(b) + g.profiles;
  }

  lemma SameHomeCases(groups: map<int, Group>, gid: int, a: seq<Group>, b: seq<Group>, a2: seq<Group>, b2: seq<Group>, id: int)
    requires id in Listed(a) <==> id in Listed(b)
    requires id in Listed(a) ==> Home(a, id) == Home(b, id)
    requires b2 == b + Added(groups, gid) && id in Listed(b2)
    requires a2 == a + Added(groups, gid)
          || (a2 == a && gid in groups && forall i :: 0 <= i < |groups[gid].profiles| ==> groups[gid].profiles[i] in Listed(a))
    ensures id in Listed(a2) && Home(a2, id) == Home(b2, id)
  {
    hide Listed, Home;
    if gid in groups {
      SameHomeStep(a, b, groups[gid], id);
    } else {
      assert a + [] == a && b + [] == b;
    }
  }

  /** A listed member has the same home among the tracked groups, repeated and dead ones dropped. */
  ghost predicate HomeAgrees(groups: map<int, Group>, gids: seq<int>, keep: set<int>, id: int) {
    var a, b := Existing(groups, Firsts(gids, keep)), Existing(groups, gids);
    id in Listed(b) ==> id in Listed(a) && Home(a, id) == Home(b, id)
  }

  lemma SameHomeLast(groups: map<int, Group>, gids: seq<int>, g: int, keep: set<int>, id: int)
    requires Keeps(groups, gids, keep) && Keeps(groups, gids + [g], keep) && HomeAgrees(groups, gids, keep, id)
    ensures HomeAgrees(groups, gids + [g], keep, id)
  {
    hide Listed, Existing, Firsts, Home, Added, Keeps;
    SameListing(groups, gids, keep, id);
    TrackedStep(groups, gids, g, keep);
    ExistingLast(groups, gids, g);
    if id in Listed(Existing(groups, gids + [g])) {
      SameHomeCases(groups, g, Existing(groups, Firsts(gids, keep)), Existing(groups, gids),
                    Existing(groups, Firsts(gids + [g], keep)), Existing(groups, gids + [g]), id);
    }
  }

  lemma KeepsPrefix(groups: map<int, Group>, gids: seq<int>, keep: set<int>, n: nat)
    requires Keeps(groups, gids, keep) && n <= |gids|
    ensures Keeps(groups, gids[..n], keep)
  {
  }

  lemma {:induction false} SameHome(groups: map<int, Group>, gids: seq<int>, keep: set<int>, id: int)
    requires Keeps(groups, gids, keep)
    ensures HomeAgrees(groups, gids, keep, id)
  {
    if gids != [] {
      hide HomeAgrees, Keeps;
      var n := |gids| - 1;
      KeepsPrefix(groups, gids, keep, n);
      SameHome(groups, gids[..n], keep, id);
      assert gids[..n] + [gids[n]] == gids;
      SameHomeLast(groups, gids[..n], gids[n], keep, id);
    }
  }

  lemma {:induction false} SameJudged(w: Snapshot, a: seq<Group>, b: seq<Group>, c: seq<int>, v: Skip)
    requires forall i :: 0 <= i < |c| ==> Judge(w, a, c[i]) == Judge(w, b, c[i])
    ensures Judged(w, a, c, v) == Judged(w, b, c, v)
  {
    if c != [] {
      hide Judge;
      SameJudged(w, a, b, c[..|c| - 1], v);
    }
  }

  /** `Normalize` does not change which members are usable: repeated groups add nothing, and no group
      has a negative number. */
  lemma NormalizeKeepsMembers(w: Snapshot, gids: seq<int>, self: int)
    requires forall g :: g in w.groups ==> g >= 0
    ensures Members(w, Tracked(gids), self) == Members(w, gids, self)
  {
    var keep := set g | g in gids && g >= 0;
    var a, b := Existing(w.groups, Tracked(gids)), Existing(w.groups, gids);
    assert Keeps(w.groups, gids, keep);
    hide Firsts, Existing, Listed, Home, Judged, Verdict;
    forall x
      ensures x in Listed(a) <==> x in Listed(b)
    {
      SameListing(w.groups, gids, keep, x);
    }
    assert Elements(Listed(a)) == Elements(Listed(b));
    SameFirsts(w.groups, gids, keep, Elements(Listed(a)) - {self});
    var c := Candidates(a, self);
    assert c == Candidates(b, self);
    forall i | 0 <= i < |c|
      ensures Judge(w, a, c[i]) == Judge(w, b, c[i])
    {
      var id := c[i];
      assert id in c;
      SameHome(w.groups, gids, keep, id);
    }
    SameJudged(w, a, b, c, Eligible);
    SameJudged(w, a, b, c, Unavailable);
  }

  /** A negative validity means what zero means: no result is fresh. */
  function NormalSettings(s: Settings): Settings {
    s.(resultValidityMins := if s.resultValidityMins < 0 then 0 else s.resultValidityMins)
  }

  lemma NormalSettingsKeepMembers(w: Snapshot, gids: seq<int>, self: int)
    ensures Members(w.(s := NormalSettings(w.s)), gids, self) == Members(w, gids, self)
  {
    var v := w.(s := NormalSettings(w.s));
    var groups := Existing(w.groups, gids);
    var c := Candidates(groups, self);
    forall id
      ensures Judge(v, groups, id) == Judge(w, groups, id)
    {
      hide Listed, Home, Transitions, XrayFullConfigFitsChain;
    }
    SameVerdicts(v, w, groups, c, Eligible);
    SameVerdicts(v, w, groups, c, Unavailable);
  }

  lemma {:induction false} SameVerdicts(v: Snapshot, w: Snapshot, groups: seq<Group>, c: seq<int>, r: Skip)
    requires forall id :: Judge(v, groups, id) == Judge(w, groups, id)
    ensures Judged(v, groups, c, r) == Judged(w, groups, c, r)
  {
    if c != [] {
      hide Judge;
      SameVerdicts(v, w, groups, c[..|c| - 1], r);
    }
  }

  lemma SortIsDistinct(s: seq<int>, key: Latencies)
    requires forall i, j :: 0 <= i < j < |s| ==> s[i] != s[j]
    ensures var r := StableSort(s, key); forall i, j :: 0 <= i < j < |r| ==> r[i] != r[j]
  {
    hide StableSort, Ranked, Peers;
    var r := StableSort(s, key);
    SortIsStable(s, key);
    forall i, j | 0 <= i < j < |r|
      ensures r[i] != r[j]
    {
      if r[i] == r[j] {
        TwiceCounts(r, i, j);
        DistinctCounts(s, r[i]);
      }
    }
  }

  /** When a plan keeps a re-ranked pool as it is. */
  predicate KeepsPool(count: nat, poolCap: int) {
    count == 0 || 1 <= poolCap <= MAX_POOL_CAP || (poolCap > MAX_POOL_CAP && count <= MAX_POOL_CAP) || (poolCap < 0 && count == 1)
  }

  lemma RerankedPrefix(members: seq<int>, poolCap: int, key: Latencies)
    requires forall i, j :: 0 <= i < j < |members| ==> members[i] != members[j]
    ensures var r := Reranked(members, poolCap, key);
            && |r| == (if poolCap < 0 || |members| <= poolCap then |members| else poolCap)
            && Firsts(r, Elements(members)) == r
  {
    var sorted, r := StableSort(members, key), Reranked(members, poolCap, key);
    hide StableSort, Firsts;
    SortElements(members, key);
    SortIsDistinct(members, key);
    forall i | 0 <= i < |r|
      ensures r[i] in Elements(members)
    {
      var x := sorted[i];
      assert x in sorted;
    }
    FirstsOfDistinct(r, Elements(members));
  }

  /** Planning on a pool that was just re-ranked gives that pool back exactly when the pool limit was in
      the range a plan enforces, or too few members remain for the limit to matter. */
  lemma PlanOfReranked(members: seq<int>, poolCap: int, rankedBy: Latencies, key: Latencies)
    requires forall i, j :: 0 <= i < j < |members| ==> members[i] != members[j]
    ensures var r := Reranked(members, poolCap, rankedBy);
            PlannedPool(members, r, Clamp(poolCap, 1, MAX_POOL_CAP), key) == r <==> KeepsPool(|members|, poolCap)
  {
    var r := Reranked(members, poolCap, rankedBy);
    var ordered := Ordered(members, r, key);
    RerankedPrefix(members, poolCap, rankedBy);
    OrderedIsPermutation(members, r, key);
    hide Reranked, StableSort, Without, Firsts;
    assert ordered[..|r|] == r;
  }

  /** For instance, re-ranking under a pool limit of 0 stores an empty pool, and the next plan takes the
      one member there is. */
  lemma ZeroLimitReplans(id: int, rankedBy: Latencies, key: Latencies)
    ensures Reranked([id], 0, rankedBy) == []
    ensures PlannedPool([id], Reranked([id], 0, rankedBy), Clamp(0, 1, MAX_POOL_CAP), key) == [id]
  {
    RerankedPrefix([id], 0, rankedBy);
    var ordered := Ordered([id], [], key);
    OrderedIsPermutation([id], [], key);
    assert ordered[0] in multiset(ordered);
  }

  /** The same over the database: repeated and negative group numbers and a negative validity, which
      planning corrects and re-ranking does not, make no difference; the pool limit does. */
  lemma ReplanKeepsPool(w: Snapshot, gids: seq<int>, self: int, poolCap: int, untrusted: set<int>)
    requires forall g :: g in w.groups ==> g >= 0
    ensures var m := Members(w, gids, self);
            var r := Reranked(m, poolCap, RankKey(w, untrusted));
            var v := w.(s := NormalSettings(w.s));
            var planned := PlannedPool(Members(v, Tracked(gids), self), r, Clamp(poolCap, 1, MAX_POOL_CAP), RankKey(v, {}));
            planned == r <==> KeepsPool(|m|, poolCap)
  {
    hide Members, Tracked, Reranked, PlannedPool;
    NormalizeKeepsMembers(w, gids, self);
    NormalSettingsKeepMembers(w, Tracked(gids), self);
    MembersDistinct(w, gids, self);
    PlanOfReranked(Members(w, gids, self), poolCap, RankKey(w, untrusted), RankKey(w.(s := NormalSettings(w.s)), {}));
  }

  /** What a plan promises about the usable members m and the persisted pool: the pool is ordered and
      capped, the build is a prefix of it, nobody is lost from the counts, and a ranking is asked for
      exactly when an unmeasured member would be built while others have to wait. */
  ghost predicate IsPlan(plan: Plan, w: Snapshot, m: seq<int>, persisted: seq<int>) {
    && plan.poolCapUsed >= 1 && plan.buildLimitUsed >= 1
    && plan.pool == PlannedPool(m, persisted, plan.poolCapUsed, RankKey(w, {}))
    && (plan.truncated <==> |m| > plan.poolCapUsed)
    && |plan.pool| == (if plan.truncated then plan.poolCapUsed else |m|)
    && plan.build == Mid(plan.pool, plan.buildLimitUsed)
    && plan.eligible == |m| && plan.eligible + |plan.census.skips| == plan.census.membersInGroups
    && plan.census.rankedByTest == Tested(w, m)
    && (plan.census.error == NoError <==> m != [])
    && (plan.needsRanking <==> |plan.pool| > plan.buildLimitUsed && exists x :: x in plan.build && Effective(w, x) == 0)
  }

  /** `PlanAutoSelector` behind `Normalize`. */
  method PlanMembers(w: Snapshot, self: int, gids: seq<int>, persisted: seq<int>, poolCap: int, buildLimit: int) returns (plan: Plan)
    requires 1 <= buildLimit <= poolCap
    ensures plan.poolCapUsed == poolCap && plan.buildLimitUsed == buildLimit
    ensures IsPlan(plan, w, Members(w, gids, self), persisted)
  {
    hide Members, RankKey, Tested, Effective, Ordered, Counts, Candidates, Existing, Judged;
    var members, census := EligibleMembers(w, self, gids);
    plan := Plan([], [], census, |members|, false, poolCap, buildLimit, false);
    MembersDistinct(w, gids, self);
    OrderedIsPermutation(members, persisted, RankKey(w, {}));
    if census.error != NoError {
      NoGroupsNoMembers(w, gids, self);
      return;
    }
    if members == [] {
      plan := plan.(census := census.(error := NoUsableMembers));
      return;
    }
    var ordered := OrderMembers(w, members, persisted);
    plan := plan.(truncated := |ordered| > poolCap);
    if plan.truncated { ordered := Mid(ordered, poolCap); }
    plan := plan.(pool := ordered, build := Mid(ordered, if |ordered| < buildLimit then |ordered| else buildLimit));
    if |ordered| > buildLimit {
      var unranked := Unranked(w, plan.build);
      plan := plan.(needsRanking := unranked > 0);
    }
  }

  class Selector {
    const id: int
    const filters: Filters
    const excludeUnavailable: bool
    var gids: seq<int>
    var poolCap: int
    var buildLimit: int
    var activeSize: int
    var expected: int
    var resultValidityMins: int
    var pool: seq<int>
    var poolRankedAt: int

    constructor (id: int, filters: Filters, excludeUnavailable: bool, gids: seq<int>, poolCap: int, buildLimit: int,
                 activeSize: int, expected: int, resultValidityMins: int, pool: seq<int>)
      ensures this.id == id && this.filters == filters && this.excludeUnavailable == excludeUnavailable
      ensures this.gids == gids && this.poolCap == poolCap && this.buildLimit == buildLimit && this.activeSize == activeSize
      ensures this.expected == expected && this.resultValidityMins == resultValidityMins && this.pool == pool
    {
      this.id, this.filters, this.excludeUnavailable := id, filters, excludeUnavailable;
      this.gids, this.poolCap, this.buildLimit, this.activeSize := gids, poolCap, buildLimit, activeSize;
      this.expected, this.resultValidityMins, this.pool, this.poolRankedAt := expected, resultValidityMins, pool, 0;
    }

    function Snap(profiles: map<int, Profile>, groups: map<int, Group>, now: int): (w: Snapshot)
      reads this
      ensures w.profiles == profiles && w.groups == groups && w.now == now
      ensures w.s.excludeUnavailable == excludeUnavailable && w.s.resultValidityMins == resultValidityMins && w.s.filters == filters
    {
      Snapshot(profiles, groups, Settings(excludeUnavailable, resultValidityMins, filters), now)
    }

    /** The values `Normalize` leaves alone: the ready set inside the watched set inside the build
        inside the pool. */
    predicate Normal()
      reads this
    {
      && 1 <= expected <= activeSize <= buildLimit <= poolCap <= MAX_POOL_CAP && buildLimit <= MAX_BUILD_LIMIT
      && 0 <= resultValidityMins && Tracked(gids) == gids
    }

    /** The fields are the nearest normal ones to those given. */
    predicate Normalizes(gids0: seq<int>, poolCap0: int, buildLimit0: int, activeSize0: int, expected0: int, validity0: int)
      reads this
    {
      var most := if poolCap < MAX_BUILD_LIMIT then poolCap else MAX_BUILD_LIMIT;
      && gids == Tracked(gids0) && poolCap == Clamp(poolCap0, 1, MAX_POOL_CAP)
      && most >= 1 && buildLimit == Clamp(buildLimit0, 1, most) && buildLimit >= 1
      && expected == Clamp(expected0, 1, buildLimit)
      && activeSize == Clamp(if activeSize0 < expected0 then expected0 else activeSize0, 1, buildLimit)
      && resultValidityMins == if validity0 < 0 then 0 else validity0
    }

    method TrackOnce()
      modifies `gids
      ensures gids == Tracked(old(gids)) == Tracked(gids)
    {
      var wanted := set g | g in gids && g >= 0;
      var tracked: seq<int> := [];
      for i := 0 to |gids|
        invariant gids == old(gids) && tracked == Firsts(gids[..i], wanted)
      {
        FirstsStep(gids[..i], gids[i], wanted);
        assert gids[..i + 1] == gids[..i] + [gids[i]];
        if gids[i] >= 0 && gids[i] !in tracked {
          tracked := tracked + [gids[i]];
        }
      }
      assert gids[..|gids|] == gids;
      TrackedTwice(gids);
      gids := tracked;
    }

    method ClampReadySet()
      requires buildLimit >= 1
      modifies `activeSize, `expected
      ensures 1 <= expected <= activeSize <= buildLimit
      ensures expected == Clamp(old(expected), 1, buildLimit)
      ensures activeSize == Clamp(if old(activeSize) < old(expected) then old(expected) else old(activeSize), 1, buildLimit)
    {
      if activeSize < 1 { activeSize := 1; }
      if expected < 1 { expected := 1; }
      if activeSize < expected { activeSize := expected; }
      if activeSize > buildLimit { activeSize := buildLimit; }
      if expected > buildLimit { expected := buildLimit; }
    }

    method Normalize()
      modifies `gids, `poolCap, `buildLimit, `activeSize, `expected, `resultValidityMins
      ensures Normal()
      ensures Normalizes(old(gids), old(poolCap), old(buildLimit), old(activeSize), old(expected), old(resultValidityMins))
    {
      hide Tracked;
      TrackOnce();
      if poolCap < 1 { poolCap := 1; }
      if poolCap > MAX_POOL_CAP { poolCap := MAX_POOL_CAP; }
      if buildLimit < 1 { buildLimit := 1; }
      if buildLimit > MAX_BUILD_LIMIT { buildLimit := MAX_BUILD_LIMIT; }
      if buildLimit > poolCap { buildLimit := poolCap; }
      if resultValidityMins < 0 { resultValidityMins := 0; }
      ClampReadySet();
    }

    /** Working members needed before a start: all that are watched closely, at least the expected ones. */
    method StartQuorum() returns (quorum: int)
      modifies `gids, `poolCap, `buildLimit, `activeSize, `expected, `resultValidityMins
      ensures Normalizes(old(gids), old(poolCap), old(buildLimit), old(activeSize), old(expected), old(resultValidityMins))
      ensures quorum == activeSize && 1 <= expected <= quorum <= buildLimit
    {
      Normalize();
      quorum := if expected < activeSize then activeSize else expected;
      if quorum > buildLimit { quorum := buildLimit; }
    }

    method PlanAutoSelector(profiles: map<int, Profile>, groups: map<int, Group>, now: int) returns (plan: Plan)
      modifies `gids, `poolCap, `buildLimit, `activeSize, `expected, `resultValidityMins
      ensures Normal()
      ensures Normalizes(old(gids), old(poolCap), old(buildLimit), old(activeSize), old(expected), old(resultValidityMins))
      ensures plan.poolCapUsed == poolCap && plan.buildLimitUsed == buildLimit
      ensures IsPlan(plan, Snap(profiles, groups, now), Members(Snap(profiles, groups, now), gids, id), pool)
    {
      Normalize();
      hide IsPlan, Members, Normalizes, Tracked;
      plan := PlanMembers(Snap(profiles, groups, now), id, gids, pool, poolCap, buildLimit);
    }

    /** Re-ranking replaces the persisted pool; it does not normalise the settings first. */
    method RerankPool(profiles: map<int, Profile>, groups: map<int, Group>, now: int, untrusted: set<int>)
      returns (ranked: seq<int>)
      modifies `pool, `poolRankedAt
      ensures var w := Snap(profiles, groups, now);
              ranked == Reranked(Members(w, gids, id), poolCap, RankKey(w, untrusted))
      ensures pool == ranked && poolRankedAt == now
    {
      var w := Snap(profiles, groups, now);
      hide Members, RankKey, Counts, Tested, Candidates, Existing, Judged;
      var members, census := EligibleMembers(w, id, gids);
      ranked := SortByLatency(w, members, untrusted);
      SortElements(members, RankKey(w, untrusted));
      if |ranked| > poolCap { ranked := Mid(ranked, poolCap); }
      pool, poolRankedAt := ranked, now;
    }
  }

  lemma TrackedTwice(gids: seq<int>)
    ensures Tracked(Tracked(gids)) == Tracked(gids)
  {
    var t := Tracked(gids);
    forall i | 0 <= i < |t|
      ensures t[i] in (set g | g in t && g >= 0)
    {
      var x := t[i];
      assert x in t;
    }
    FirstsOfDistinct(t, set g | g in t && g >= 0);
  }

  lemma NoGroupsNoMembers(w: Snapshot, gids: seq<int>, self: int)
    requires Existing(w.groups, gids) == []
    ensures Members(w, gids, self) == []
  {
  }

  method Unranked(w: Snapshot, s: seq<int>) returns (unranked: nat)
    ensures unranked > 0 <==> exists x :: x in s && Effective(w, x) == 0
  {
    hide Effective;
    unranked := 0;
    for i := 0 to |s|
      invariant unranked > 0 <==> exists x :: x in s[..i] && Effective(w, x) == 0
    {
      assert s[..i + 1] == s[..i] + [s[i]];
      if Effective(w, s[i]) == 0 {
        var x := s[i];
        assert x in s[..i + 1];
        unranked := unranked + 1;
      }
    }
    assert s[..|s|] == s;
  }
}
