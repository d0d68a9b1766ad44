/** The groups repository: its in-memory map, its rows, and the tombstones that keep a deleted
    group from coming back. Every method runs under the repository's mutex; a deletion looks the
    group up first and deletes under the mutex later, so threads interleave between the two. */
module GroupStore {
  import opened Lists
  import opened Wrappers

  /** A group as far as it is stored here. A group that was never added has a negative id. */
  datatype Group = Group(id: int, profiles: seq<int>)

  /** The loop that drops repetitions from a loaded list; it shortens the list if it changes it. */
  method Dedupe(profiles: seq<int>) returns (unique: seq<int>)
    ensures unique == Unique(profiles) && (|unique| == |profiles| ==> unique == profiles)
  {
    var seen: set<int> := {};
    unique := [];
    ghost var all := Elements(profiles);
    hide Firsts;
    NoFirsts(all);
    assert profiles[..0] == [];
    for i := 0 to |profiles|
      invariant unique == Firsts(profiles[..i], all) && seen == Elements(unique)
      invariant |unique| <= i && (|unique| == i ==> unique == profiles[..i])
    {
      var pid := profiles[i];
      FirstsStep(profiles[..i], pid, all);
      assert profiles[..i + 1] == profiles[..i] + [pid];
      if pid in seen {
        continue;
      }
      seen := seen + {pid};
      unique := unique + [pid];
    }
    assert profiles[..|profiles|] == profiles;
  }

  // -------------------------------------------------------------------------------------
  // The state and what each locked section makes of it

  /** The cache, the groups table (id to profiles), the groups_order table in tab order, the deleted
      ids, and the counter in entity_ids. */
  datatype State = State(memMap: map<int, Group>, rows: map<int, seq<int>>, order: seq<int>, tombstones: set<int>, last: nat)

  /** No deleted group is in the tables or in memory. */
  ghost predicate Safe(s: State) {
    s.tombstones !! s.rows.Keys && s.tombstones !! s.memMap.Keys && forall id :: id in s.order ==> id !in s.tombstones
  }

  /** Every id in use, or used, was handed out by the counter. */
  ghost predicate HandedOut(s: State) {
    forall id :: id in s.rows || id in s.memMap || id in s.tombstones ==> id <= s.last
  }

  /** `NewGroupID`: the next counter value, or 0 when the query fails. */
  function NextId(s: State, works: bool): int {
    if works then s.last + 1 else 0
  }

  function Adding(s: State, group: Group, works: bool): State {
    if group.id >= 0 then s
    else
      var id := NextId(s, works);
      State(s.memMap[id := group.(id := id)], s.rows[id := group.profiles], s.order + [id], s.tombstones,
            if works then s.last + 1 else s.last)
  }

  function Found(s: State, id: int): Option<Group> {
    if id in s.memMap then Some(s.memMap[id])
    else if id in s.rows then Some(Group(id, Unique(s.rows[id])))
    else None
  }

  function Getting(s: State, id: int): State {
    if id in s.memMap || id !in s.rows then s
    else s.(memMap := s.memMap[id := Group(id, Unique(s.rows[id]))], rows := s.rows[id := Unique(s.rows[id])])
  }

  predicate Savable(s: State, group: Group) {
    group.id >= 0 && group.id !in s.tombstones
  }

  function Saving(s: State, group: Group): State {
    if Savable(s, group) then s.(memMap := s.memMap[group.id := group], rows := s.rows[group.id := group.profiles]) else s
  }

  function Deleting(s: State, id: int, found: bool, committed: bool): State {
    if !committed then s
    else State(s.memMap - {id}, s.rows - {id}, Without(s.order, {id}), s.tombstones + (if found then {id} else {}), s.last)
  }

  function Ordering(s: State, ids: seq<int>): State {
    s.(order := Without(ids, s.tombstones))
  }

  class GroupsRepo {
    var memMap: map<int, Group>
    var rows: map<int, seq<int>>
    var order: seq<int>
    var tombstones: set<int>
    var group_last_id: nat
    var revision: nat

    function Now(): State
      reads this
    {
      State(memMap, rows, order, tombstones, group_last_id)
    }

    constructor (rows: map<int, seq<int>>, order: seq<int>, group_last_id: nat)
      ensures Now() == State(map[], rows, order, {}, group_last_id)
      ensures Safe(Now()) && ((forall id :: id in rows ==> id <= group_last_id) ==> HandedOut(Now()))
    {
      memMap, tombstones, revision := map[], {}, 0;
      this.rows, this.order, this.group_last_id := rows, order, group_last_id;
    }

    /** `AddGroup`. A group whose new id is tombstoned comes back: that, and only that, breaks the
        rule that deleted groups stay deleted. */
    method AddGroup(group: Group, works: bool) returns (ok: bool, added: Group)
      modifies this
      ensures ok == (group.id < 0) && Now() == Adding(old(Now()), group, works)
      ensures added == if ok then group.(id := NextId(old(Now()), works)) else group
      ensures ok ==> added.id in rows && added.id in memMap && added.id in order
      ensures old(Safe(Now())) ==> (Safe(Now()) <==> !ok || NextId(old(Now()), works) !in tombstones)
    {
      added := group;
      if group.id >= 0 {
        return false, group;
      }
      var newId := NextId(Now(), works);
      if works {
        group_last_id := group_last_id + 1;
      }
      added := group.(id := newId);
      memMap := memMap[newId := added];
      rows := rows[newId := group.profiles];
      order := order + [newId];
      revision := revision + 1;
      assert newId in order && newId in rows;
      return true, added;
    }

    /** The profile list read from a row, written back when it held repetitions. */
    method LoadFromDatabase(id: int) returns (group: Option<Group>)
      modifies this`rows
      ensures rows.Keys == old(rows.Keys)
      ensures if id in rows then group == Some(Group(id, Unique(old(rows)[id]))) && rows == old(rows)[id := group.value.profiles]
        else group == None && rows == old(rows)
    {
      if id !in rows {
        return None;
      }
      var unique := Dedupe(rows[id]);
      if |unique| != |rows[id]| {
        rows := rows[id := unique];
      }
      return Some(Group(id, unique));
    }

    /** `GetGroup`. */
    method GetGroup(id: int) returns (group: Option<Group>)
      modifies this`rows, this`memMap
      ensures group == Found(old(Now()), id) && Now() == Getting(old(Now()), id)
      ensures old(Safe(Now())) ==> Safe(Now()) && (id in tombstones ==> group.None?)
    {
      if id in memMap {
        return Some(memMap[id]);
      }
      group := LoadFromDatabase(id);
      if group.None? {
        return;
      }
      memMap := memMap[id := group.value];
    }

    /** `Save`: refused exactly for a group that was never added or has been deleted. */
    method Save(group: Group) returns (ok: bool)
      modifies this
      ensures ok == Savable(old(Now()), group) && Now() == Saving(old(Now()), group)
      ensures old(Safe(Now())) ==> Safe(Now())
    {
      if group.id < 0 {
        return false;
      }
      if group.id !in tombstones {
        rows := rows[group.id := group.profiles];
        memMap := memMap[group.id := group];
        revision := revision + 1;
        return true;
      }
      return false;
    }

    /** The locked part of `DeleteGroup`; `found` is what the look-up before it saw. */
    method DeleteGroup(id: int, found: bool, committed: bool) returns (ok: bool)
      modifies this
      ensures ok == committed && Now() == Deleting(old(Now()), id, found, committed)
      ensures ok ==> id !in rows && id !in memMap && id !in order && (found ==> id in tombstones)
      ensures old(Safe(Now())) ==> Safe(Now())
    {
      if !committed {
        return false;
      }
      order := Without(order, {id});
      rows := rows - {id};
      memMap := memMap - {id};
      if found {
        tombstones := tombstones + {id};
      }
      revision := revision + 1;
      return true;
    }

    /** `SetGroupsTabOrder`: the given order without deleted groups. */
    method SetGroupsTabOrder(ids: seq<int>)
      modifies this`order, this`revision
      ensures Now() == Ordering(old(Now()), ids)
      ensures old(Safe(Now())) ==> Safe(Now())
    {
      order := [];
      assert ids[..0] == [];
      for i := 0 to |ids|
        invariant order == Without(ids[..i], tombstones)
      {
        assert ids[..i + 1][..i] == ids[..i];
        if ids[i] in tombstones {
          continue;
        }
        order := order + [ids[i]];
      }
      assert ids[..|ids|] == ids;
      revision := revision + 1;
    }
  }

  // -------------------------------------------------------------------------------------
  // Interleavings

  /** One locked section of some thread; t names the deletions under way. */
  datatype Event = Add(group: Group, works: bool) | Get(id: int) | Put(group: Group) | Look(t: nat, id: int)
                 | Delete(t: nat, committed: bool) | TabOrder(ids: seq<int>)

  /** The store, and what every deletion under way has looked up. */
  datatype Threads = Threads(store: State, looked: map<nat, (int, bool)>)

  function Step(x: Threads, e: Event): Threads {
    var s := x.store;
    match e
    case Add(group, works) => x.(store := Adding(s, group, works))
    case Get(id) => x.(store := Getting(s, id))
    case Put(group) => x.(store := Saving(s, group))
    case Look(t, id) => Threads(Getting(s, id), x.looked[t := (id, Found(s, id).Some?)])
    case Delete(t, committed) =>
      if t in x.looked then Threads(Deleting(s, x.looked[t].0, x.looked[t].1, committed), x.looked - {t}) else x
    case TabOrder(ids) => x.(store := Ordering(s, ids))
  }

  function Replay(x: Threads, events: seq<Event>): Threads {
    if events == [] then x else Step(Replay(x, events[..|events| - 1]), events[|events| - 1])
  }

  /** The one step that brings a deleted group back: a new group is given its id. */
  predicate Revives(x: Threads, e: Event) {
    e.Add? && e.group.id < 0 && NextId(x.store, e.works) in x.store.tombstones
  }

  lemma StepSafe(x: Threads, e: Event)
    requires Safe(x.store)
    ensures Safe(Step(x, e).store) <==> !Revives(x, e)
    ensures x.store.tombstones <= Step(x, e).store.tombstones
  {
    if e.Add? && e.group.id < 0 {
      var id := NextId(x.store, e.works);
      var t := Adding(x.store, e.group, e.works);
      assert id in t.rows;
    }
  }

  // What readers see.

  /** The cache repeats the rows. */
  ghost predicate Coherent(s: State) {
    forall id :: id in s.memMap ==> id in s.rows && s.memMap[id] == Group(id, s.rows[id])
  }

  /** The deletion a step carries out. */
  predicate Deletes(x: Threads, e: Event, id: int) {
    e.Delete? && e.committed && e.t in x.looked && x.looked[e.t].0 == id
  }

  /** Every step changes what a reader finds for one group at most: the one added or saved is found as it
      was given, the one deleted is not found, and reading changes nothing. */
  lemma StepVisible(x: Threads, e: Event, id: int)
    requires Coherent(x.store)
    ensures Coherent(Step(x, e).store)
    ensures Found(Step(x, e).store, id)
      == if e.Add? && e.group.id < 0 && id == NextId(x.store, e.works) then Some(Group(id, e.group.profiles))
         else if e.Put? && e.group.id == id && id >= 0 && id !in x.store.tombstones then Some(e.group)
         else if Deletes(x, e, id) then None
         else Found(x.store, id)
  {
    hide Unique;
  }

  /** Only a deletion whose look-up had found the group leaves a tombstone. */
  lemma StepTombstones(x: Threads, e: Event, id: int)
    ensures id in Step(x, e).store.tombstones <==> id in x.store.tombstones || (Deletes(x, e, id) && x.looked[e.t].1)
  {
  }

  /** The tab order gains what is added, loses what is deleted, and is replaced, without tombstones, by a
      given one. */
  lemma StepOrder(x: Threads, e: Event, id: int)
    ensures var order, order' := x.store.order, Step(x, e).store.order;
      && (e.Add? && e.group.id < 0 ==> order' == order + [NextId(x.store, e.works)])
      && (e.TabOrder? ==> (id in order' <==> id in e.ids && id !in x.store.tombstones))
      && (e.Delete? ==> (id in order' <==> id in order && !Deletes(x, e, id)))
      && (e.Get? || e.Put? || e.Look? || (e.Add? && e.group.id >= 0) ==> order' == order)
  {
  }

  /** What is found survives a restart, which empties the cache; repeated profiles are then dropped. */
  lemma RestartKeeps(s: State, id: int)
    requires Coherent(s)
    ensures var before, after := Found(s, id), Found(s.(memMap := map[]), id);
      if before.None? then after.None? else after == Some(Group(id, Unique(before.value.profiles)))
  {
    if id in s.rows { FirstsOfDistinct(Unique(s.rows[id]), Elements(Unique(s.rows[id]))); }
  }

  lemma {:induction false} RunCoherent(x: Threads, events: seq<Event>, n: nat)
    requires Coherent(x.store) && n <= |events|
    ensures Coherent(Replay(x, events[..n]).store)
  {
    hide Coherent, Step, Found;
    if n == 0 {
      assert events[..0] == [];
    } else {
      RunCoherent(x, events, n - 1);
      ReplayNext(x, events, n - 1);
      StepVisible(Replay(x, events[..n - 1]), events[n - 1], 0);
    }
  }

  lemma ReplayNext(x: Threads, events: seq<Event>, k: nat)
    requires k < |events|
    ensures Replay(x, events[..k + 1]) == Step(Replay(x, events[..k]), events[k])
  {
    assert events[..k + 1][..k] == events[..k];
  }

  ghost predicate NoneRevived(x: Threads, events: seq<Event>, n: nat)
    requires n <= |events|
  {
    forall k :: 0 <= k < n ==> !Revives(Replay(x, events[..k]), events[k])
  }

  /** In any interleaving the rule holds after every step if and only if no step hands out a
      tombstoned id again. */
  lemma {:induction false} RunSafe(x: Threads, events: seq<Event>, n: nat)
    requires Safe(x.store) && n <= |events|
    ensures (forall k :: 0 <= k <= n ==> Safe(Replay(x, events[..k]).store)) <==> NoneRevived(x, events, n)
  {
    hide Safe, Step, Revives;
    if n == 0 {
      assert events[..0] == [];
    } else {
      RunSafe(x, events, n - 1);
      if NoneRevived(x, events, n - 1) {
        ReplayNext(x, events, n - 1);
        assert Safe(Replay(x, events[..n - 1]).store);
        StepSafe(Replay(x, events[..n - 1]), events[n - 1]);
      }
    }
  }

  /** Tombstones are for good: once deleted, a group is in none of the later tables. */
  lemma {:induction false} DeletedStaysDeleted(x: Threads, events: seq<Event>, k: nat, n: nat, id: int)
    requires Safe(x.store) && k <= n <= |events| && NoneRevived(x, events, n)
    requires id in Replay(x, events[..k]).store.tombstones
    ensures var s := Replay(x, events[..n]).store; id in s.tombstones && id !in s.rows && id !in s.memMap && id !in s.order
  {
    RunSafe(x, events, n);
    assert Safe(Replay(x, events[..n]).store);
    if k < n {
      DeletedStaysDeleted(x, events, k, n - 1, id);
      ReplayNext(x, events, n - 1);
      hide Safe, Step;
      assert Safe(Replay(x, events[..n - 1]).store);
      StepSafe(Replay(x, events[..n - 1]), events[n - 1]);
    }
  }

  /** What the counter guarantees: if it can always be read and only ids it handed out are saved, no
      step hands one out twice. */
  ghost predicate Ordinary(x: Threads, e: Event) {
    (e.Add? ==> e.works) && (e.Put? ==> e.group.id <= x.store.last)
  }

  ghost predicate Counted(x: Threads) {
    HandedOut(x.store) && forall t :: t in x.looked && x.looked[t].1 ==> x.looked[t].0 <= x.store.last
  }

  lemma StepCounted(x: Threads, e: Event)
    requires Counted(x) && Ordinary(x, e)
    ensures Counted(Step(x, e)) && !Revives(x, e)
  {
  }

  lemma {:induction false} CounterSuffices(x: Threads, events: seq<Event>, n: nat)
    requires Counted(x) && n <= |events|
    requires forall k :: 0 <= k < n ==> Ordinary(Replay(x, events[..k]), events[k])
    ensures Counted(Replay(x, events[..n])) && NoneRevived(x, events, n)
  {
    hide Counted, Ordinary, Step, Revives;
    if n == 0 {
      assert events[..0] == [];
    } else {
      CounterSuffices(x, events, n - 1);
      ReplayNext(x, events, n - 1);
      assert Ordinary(Replay(x, events[..n - 1]), events[n - 1]);
      StepCounted(Replay(x, events[..n - 1]), events[n - 1]);
    }
  }

  /** With an unreadable counter a deleted group comes back, starting from an empty store: a group is
      added as number 0, looked up, deleted, and another one added as number 0. */
  lemma FailingCounterRevives(profiles: seq<int>)
    ensures var x := Threads(State(map[], map[], [], {}, 0), map[]);
      var fails := Add(Group(-1, profiles), false);
      var after := Step(Step(Step(Step(x, fails), Look(0, 0)), Delete(0, true)), fails).store;
      Safe(x.store) && 0 in after.tombstones && 0 in after.rows && !Safe(after)
  {
  }

  /** Any interleaving of adding, getting, saving, deleting and reordering does what the events say. */
  method Run(repo: GroupsRepo, events: seq<Event>) returns (looked: map<nat, (int, bool)>)
    modifies repo
    ensures Threads(repo.Now(), looked) == Replay(Threads(old(repo.Now()), map[]), events)
  {
    hide Adding, Getting, Found, Saving, Deleting, Ordering, Safe;
    looked := map[];
    ghost var x := Threads(repo.Now(), map[]);
    assert events[..0] == [];
    for i := 0 to |events|
      invariant Threads(repo.Now(), looked) == Replay(x, events[..i])
    {
      ReplayNext(x, events, i);
      match events[i] {
        case Add(group, works) => var ok, added := repo.AddGroup(group, works);
        case Get(id) => var group := repo.GetGroup(id);
        case Put(group) => var ok := repo.Save(group);
        case Look(t, id) =>
          var group := repo.GetGroup(id);
          looked := looked[t := (id, group.Some?)];
        case Delete(t, committed) =>
          if t in looked {
            var ok := repo.DeleteGroup(looked[t].0, looked[t].1, committed);
            looked := looked - {t};
          }
        case TabOrder(ids) => repo.SetGroupsTabOrder(ids);
      }
    }
    assert events[..|events|] == events;
  }

  /** What a tombstone needs is that the look-up before the deletion saw the group: deleting an
      id that is only being handed out in between leaves none, and a save brings the row back. */
  method LateAdd(repo: GroupsRepo, profiles: seq<int>) returns (id: int)
    requires Safe(repo.Now()) && HandedOut(repo.Now())
    modifies repo
    ensures id in repo.rows && id !in repo.tombstones && id !in old(repo.rows)
  {
    id := repo.group_last_id + 1;
    var seen := repo.GetGroup(id);
    var ok, group := repo.AddGroup(Group(-1, profiles), true);
    ok := repo.DeleteGroup(id, seen.Some?, true);
    assert id !in repo.rows;
    ok := repo.Save(group);
  }
}
