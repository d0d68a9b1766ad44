/** The IPC channel as a step relation: caller threads, the I/O thread that reads responses, and
    threads that wake every call (reconnect, disconnect, destruction), interleaved at every lock
    operation. */
module RpcChannel {
  import opened Limbs
  import opened RpcFraming

  const NOT_CONNECTED: int := -1919

  /** Who took a call out of `pending`. */
  datatype By = ByReader | ByTimeout | ByWakeAll

  datatype Who = Nobody | TheReader | Caller(c: nat) | Waker(w: nat)

  /** Where a caller is in `Call`; the number tells the first wait from the second. */
  datatype CallerPc = Idle | Register | Registering | Wait(n: nat) | Checking(n: nat) | Sleeping(n: nat)
                    | Reclaim | Reclaiming | Finish | Finishing | Returned(code: int, rsp: seq<u8>)

  /** A PendingCall and its caller; `dones` counts how often `done` was set, `left` records the
      departures from `pending`. */
  datatype Call = Call(id: int, pc: CallerPc, ok: bool, mu: Who, done: bool, dones: nat, status: int, data: seq<u8>, left: seq<By>)

  /** The I/O thread in `processBuffer`, with the frame at hand. */
  datatype ReaderPc = Reading | Got(f: Frame) | Looking(f: Frame) | Found(f: Frame, c: nat) | Setting(f: Frame, c: nat)

  /** A thread in `wakeAllWithError`, with the calls it has still to wake. */
  datatype WakerPc = Asleep | Wanting | Holding(todo: set<nat>) | Reaching(todo: set<nat>, c: nat) | Waking(todo: set<nat>, c: nat)

  datatype State = State(next_id: nat, connected: bool, pending: map<int, nat>, pmu: Who, calls: map<nat, Call>,
                         reader: ReaderPc, wakers: map<nat, WakerPc>, log: seq<Frame>)

  datatype CallerStep = Refuse | Fetch | TakePending | Put | TakeMu | Check(timedOut: bool) | Remove | Return

  datatype ReaderStep = Receive(f: Frame) | ReaderTakesPending | LookUp | ReaderTakesMu | Set

  datatype WakerStep = Disconnect | WakerTakesPending | Pick(c: nat) | WakerTakesMu | Wake | Clear

  datatype Step = OfCaller(c: nat, cs: CallerStep) | OfReader(rs: ReaderStep) | OfWaker(w: nat, ws: WakerStep) | Connect

  ghost predicate Init(s: State) {
    && s.pending == map[] && s.pmu == Nobody && s.reader == Reading && s.log == []
    && (forall c :: c in s.calls ==> s.calls[c] == Call(0, Idle, false, Nobody, false, 0, 1, [], []))
    && (forall w :: w in s.wakers ==> s.wakers[w] == Asleep)
  }

  /** A call between its id and its return. */
  predicate Live(k: Call) {
    !k.pc.Idle? && !k.pc.Returned?
  }

  /** The next id is in use by no call: the ids have not come round while one is outstanding. */
  ghost predicate FreshId(s: State) {
    var id := s.next_id % BASE;
    id !in s.pending && forall d :: d in s.calls && Live(s.calls[d]) ==> s.calls[d].id != id
  }

  /** The calls in `pending`. */
  ghost function Members(pending: map<int, nat>): (r: set<nat>)
    ensures forall c :: c in r <==> exists id :: id in pending && pending[id] == c
  {
    set id | id in pending :: pending[id]
  }

  ghost predicate CallerEnabled(s: State, c: nat, step: CallerStep) {
    c in s.calls && var k := s.calls[c];
    match step
    case Refuse => k.pc == Idle && !s.connected
    case Fetch => k.pc == Idle && s.connected && FreshId(s)
    case TakePending => (k.pc == Register || k.pc == Reclaim) && s.pmu == Nobody
    case Put => k.pc == Registering
    case TakeMu => (k.pc.Wait? || k.pc.Sleeping? || k.pc == Finish) && k.mu == Nobody
    case Check(timedOut) => k.pc.Checking?
    case Remove => k.pc == Reclaiming
    case Return => k.pc == Finishing
  }

  ghost function ApplyCaller(s: State, c: nat, step: CallerStep): State
    requires CallerEnabled(s, c, step)
  {
    var k := s.calls[c];
    match step
    case Refuse => s.(calls := s.calls[c := k.(pc := Returned(NOT_CONNECTED, []))])
    case Fetch => s.(next_id := s.next_id + 1, calls := s.calls[c := k.(id := s.next_id % BASE, pc := Register)])
    case TakePending => s.(pmu := Caller(c), calls := s.calls[c := k.(pc := if k.pc == Register then Registering else Reclaiming)])
    case Put => s.(pmu := Nobody, pending := s.pending[k.id := c], calls := s.calls[c := k.(pc := Wait(1))])
    case TakeMu =>
      var pc := match k.pc case Wait(n) => Checking(n) case Sleeping(n) => Checking(n) case _ => Finishing;
      s.(calls := s.calls[c := k.(mu := Caller(c), pc := pc)])
    case Check(timedOut) =>
      var n := k.pc.n;
      s.(calls := s.calls[c :=
        if k.done then k.(mu := Nobody, ok := true, pc := Finish)
        else if timedOut then k.(mu := Nobody, ok := false, pc := if n == 1 then Reclaim else Finish)
        else k.(mu := Nobody, pc := Sleeping(n))])
    case Remove =>
      if k.id in s.pending then
        s.(pmu := Nobody, pending := s.pending - {k.id}, calls := s.calls[c := k.(pc := Finish, left := k.left + [ByTimeout])])
      else
        s.(pmu := Nobody, calls := s.calls[c := k.(pc := Wait(2))])
    case Return =>
      var result := if !k.ok then Returned(1, []) else if k.status != 0 then Returned(1, k.data) else Returned(0, k.data);
      s.(calls := s.calls[c := k.(mu := Nobody, pc := result)])
  }

  ghost predicate ReaderEnabled(s: State, step: ReaderStep) {
    match step
    case Receive(f) => s.reader == Reading
    case ReaderTakesPending => s.reader.Got? && s.pmu == Nobody
    case LookUp => s.reader.Looking?
    case ReaderTakesMu => s.reader.Found? && s.reader.c in s.calls && s.calls[s.reader.c].mu == Nobody
    case Set => s.reader.Setting? && s.reader.c in s.calls
  }

  ghost function ApplyReader(s: State, step: ReaderStep): State
    requires ReaderEnabled(s, step)
  {
    match step
    case Receive(f) => s.(reader := Got(f), log := s.log + [f])
    case ReaderTakesPending => s.(reader := Looking(s.reader.f), pmu := TheReader)
    case LookUp =>
      var f := s.reader.f;
      if f.id in s.pending && s.pending[f.id] in s.calls then
        var c := s.pending[f.id];
        s.(reader := Found(f, c), pmu := Nobody, pending := s.pending - {f.id},
           calls := s.calls[c := s.calls[c].(left := s.calls[c].left + [ByReader])])
      else s.(reader := Reading, pmu := Nobody)
    case ReaderTakesMu =>
      s.(reader := Setting(s.reader.f, s.reader.c), calls := s.calls[s.reader.c := s.calls[s.reader.c].(mu := TheReader)])
    case Set =>
      var f, k := s.reader.f, s.calls[s.reader.c];
      s.(reader := Reading,
         calls := s.calls[s.reader.c := k.(mu := Nobody, status := f.status, data := f.data, done := true, dones := k.dones + 1)])
  }

  ghost predicate WakerEnabled(s: State, w: nat, step: WakerStep) {
    w in s.wakers && var pc := s.wakers[w];
    match step
    case Disconnect => pc == Asleep
    case WakerTakesPending => pc == Wanting && s.pmu == Nobody
    case Pick(c) => pc.Holding? && c in pc.todo
    case WakerTakesMu => pc.Reaching? && pc.c in s.calls && s.calls[pc.c].mu == Nobody
    case Wake => pc.Waking? && pc.c in s.calls
    case Clear => pc == Holding({})
  }

  ghost function ApplyWaker(s: State, w: nat, step: WakerStep): State
    requires WakerEnabled(s, w, step)
  {
    var pc := s.wakers[w];
    match step
    case Disconnect => s.(connected := false, wakers := s.wakers[w := Wanting])
    case WakerTakesPending => s.(pmu := Waker(w), wakers := s.wakers[w := Holding(Members(s.pending))])
    case Pick(c) => s.(wakers := s.wakers[w := Reaching(pc.todo, c)])
    case WakerTakesMu =>
      s.(wakers := s.wakers[w := Waking(pc.todo, pc.c)], calls := s.calls[pc.c := s.calls[pc.c].(mu := Waker(w))])
    case Wake =>
      var k := s.calls[pc.c];
      s.(wakers := s.wakers[w := Holding(pc.todo - {pc.c})],
         calls := s.calls[pc.c := k.(mu := Nobody, done := true, dones := k.dones + 1)])
    case Clear =>
      s.(wakers := s.wakers[w := Asleep], pmu := Nobody, pending := map[],
         calls := map c | c in s.calls ::
           if c in Members(s.pending) then s.calls[c].(left := s.calls[c].left + [ByWakeAll]) else s.calls[c])
  }

  ghost predicate Enabled(s: State, step: Step) {
    match step
    case OfCaller(c, cs) => CallerEnabled(s, c, cs)
    case OfReader(rs) => ReaderEnabled(s, rs)
    case OfWaker(w, ws) => WakerEnabled(s, w, ws)
    case Connect => true
  }

  /** The state after a step. */
  ghost function Apply(s: State, step: Step): State
    requires Enabled(s, step)
  {
    match step
    case OfCaller(c, cs) => ApplyCaller(s, c, cs)
    case OfReader(rs) => ApplyReader(s, rs)
    case OfWaker(w, ws) => ApplyWaker(s, w, ws)
    case Connect => s.(connected := true)
  }

  // -------------------------------------------------------------------------------------
  // The invariant

  predicate Unregistered(k: Call) {
    k.pc.Idle? || k.pc.Register? || k.pc.Registering? || k.pc == Returned(NOT_CONNECTED, [])
  }

  predicate Holds(pc: WakerPc) {
    pc.Holding? || pc.Reaching? || pc.Waking?
  }

  /** A thread holding `pending_mu` has already woken this call. */
  predicate Woken(pmu: Who, wakers: map<nat, WakerPc>, c: nat) {
    pmu.Waker? && pmu.w in wakers && Holds(wakers[pmu.w]) && c !in wakers[pmu.w].todo
  }

  /** The I/O thread has taken this call out of `pending` and not yet filled it in. */
  predicate Taken(reader: ReaderPc, c: nat) {
    (reader.Found? || reader.Setting?) && reader.c == c
  }

  /** A received frame with this id, status and data. */
  ghost predicate Answered(log: seq<Frame>, id: int, status: int, data: seq<u8>) {
    exists i :: 0 <= i < |log| && log[i].id == id && log[i].status == status && log[i].data == data
  }

  /** Membership: a call is in `pending`, under its own id, from its registration until the one
      departure that is recorded. */
  ghost predicate PendingOk(pending: map<int, nat>, c: nat, k: Call) {
    && (Unregistered(k) ==> k.left == [] && forall id :: id in pending ==> pending[id] != c)
    && (!Unregistered(k) ==> |k.left| <= 1 && (k.left == [] <==> k.id in pending && pending[k.id] == c))
  }

  /** When `done` is set, by whom, and what it says. */
  ghost predicate DoneOk(k: Call, woken: bool, taken: bool, log: seq<Frame>) {
    && k.dones == (if k.done then 1 else 0)
    && (!k.done || k.left != [ByReader] ==> k.status == 1 && k.data == [])
    && (k.done && k.left == [ByReader] ==> Answered(log, k.id, k.status, k.data))
    && (k.ok ==> k.done)
    && (Unregistered(k) ==> !k.done)
    && (!Unregistered(k) && k.left == [] ==> (k.done <==> woken))
    && (k.left == [ByReader] ==> (k.done <==> !taken))
    && (k.left == [ByTimeout] ==> !k.done)
    && (k.left == [ByWakeAll] ==> k.done)
    && (k.pc.Returned? && k.ok ==> k.pc == Returned(if k.status == 0 then 0 else 1, k.data))
    && (k.pc.Returned? && !k.ok ==> k.pc == Returned(1, []) || k.pc == Returned(NOT_CONNECTED, []))
  }

  /** Who holds a call's lock, and `pending_mu` for its caller. */
  ghost predicate MuOk(c: nat, k: Call, pmu: Who, reader: ReaderPc, wakers: map<nat, WakerPc>) {
    && (k.pc.Checking? || k.pc.Finishing? <==> k.mu.Caller?)
    && (k.mu.Caller? ==> k.mu.c == c)
    && (k.mu.TheReader? <==> reader.Setting? && reader.c == c)
    && (k.mu.Waker? ==> k.mu.w in wakers && wakers[k.mu.w].Waking? && wakers[k.mu.w].c == c)
    && (k.pc.Registering? || k.pc.Reclaiming? <==> pmu == Caller(c))
  }

  /** Live calls have different ids, and one about to register finds its id free. */
  ghost predicate IdOk(pending: map<int, nat>, c: nat, k: Call) {
    && (k.pc.Register? || k.pc.Registering? ==> k.id !in pending)
    && (Live(k) && k.id in pending ==> pending[k.id] == c)
  }

  ghost predicate DistinctIds(calls: map<nat, Call>) {
    forall c, d :: c in calls && d in calls && c != d && Live(calls[c]) && Live(calls[d]) ==> calls[c].id != calls[d].id
  }

  ghost predicate PendingKeys(pending: map<int, nat>, calls: map<nat, Call>) {
    forall id :: id in pending ==> pending[id] in calls && calls[pending[id]].id == id
  }

  ghost predicate ReaderOk(reader: ReaderPc, pmu: Who, calls: map<nat, Call>, log: seq<Frame>) {
    && (reader.Looking? <==> pmu == TheReader)
    && (!reader.Reading? ==> reader.f in log)
    && (reader.Found? || reader.Setting? ==>
          reader.c in calls && calls[reader.c].id == reader.f.id && calls[reader.c].left == [ByReader]
          && !Unregistered(calls[reader.c]))
  }

  ghost predicate WakerOk(w: nat, pc: WakerPc, pmu: Who, pending: map<int, nat>, calls: map<nat, Call>) {
    && (Holds(pc) <==> pmu == Waker(w))
    && (Holds(pc) ==> pc.todo <= Members(pending))
    && (pc.Reaching? || pc.Waking? ==> pc.c in pc.todo)
    && (pc.Waking? ==> pc.c in calls && calls[pc.c].mu == Waker(w))
  }

  ghost predicate CallOk(s: State, c: nat)
    requires c in s.calls
  {
    && PendingOk(s.pending, c, s.calls[c])
    && DoneOk(s.calls[c], Woken(s.pmu, s.wakers, c), Taken(s.reader, c), s.log)
    && MuOk(c, s.calls[c], s.pmu, s.reader, s.wakers)
    && IdOk(s.pending, c, s.calls[c])
  }

  ghost predicate CallsOk(s: State) {
    forall c :: c in s.calls ==> CallOk(s, c)
  }

  ghost predicate Inv(s: State) {
    && PendingKeys(s.pending, s.calls) && DistinctIds(s.calls) && ReaderOk(s.reader, s.pmu, s.calls, s.log) && CallsOk(s)
    && (forall w :: w in s.wakers ==> WakerOk(w, s.wakers[w], s.pmu, s.pending, s.calls))
    && (s.pmu.Caller? ==> s.pmu.c in s.calls) && (s.pmu.Waker? ==> s.pmu.w in s.wakers)
  }

  lemma InitInv(s: State)
    requires Init(s)
    ensures Inv(s)
  {
  }

  // -------------------------------------------------------------------------------------
  // Every step keeps it

  /** The calls in `pending` are those that have registered and not left. */
  lemma InMembers(s: State, c: nat)
    requires Inv(s) && c in s.calls
    ensures c in Members(s.pending) <==> !Unregistered(s.calls[c]) && s.calls[c].left == []
  {
    hide DoneOk, MuOk, ReaderOk, WakerOk, DistinctIds;
    var k := s.calls[c];
    if !Unregistered(k) && k.left == [] { assert s.pending[k.id] == c; }
  }

  lemma AlreadyLeft(left: seq<By>)
    requires left == []
    ensures left + [ByTimeout] == [ByTimeout] && left + [ByReader] == [ByReader] && left + [ByWakeAll] == [ByWakeAll]
  {
  }

  /** What a caller's step leaves alone. */
  lemma CallerFrame(s: State, c: nat, step: CallerStep)
    requires CallerEnabled(s, c, step)
    ensures var t := ApplyCaller(s, c, step);
      && t.calls == s.calls[c := t.calls[c]] && t.reader == s.reader && t.wakers == s.wakers && t.log == s.log
      && (t.pmu == s.pmu || (s.pmu == Nobody && t.pmu == Caller(c))
          || (t.pmu == Nobody && (s.calls[c].pc.Registering? || s.calls[c].pc.Reclaiming?)))
  {
  }

  lemma AnsweredMore(log: seq<Frame>, f: Frame, id: int, status: int, data: seq<u8>)
    ensures Answered(log, id, status, data) ==> Answered(log + [f], id, status, data)
  {
    if Answered(log, id, status, data) {
      var i :| 0 <= i < |log| && log[i].id == id && log[i].status == status && log[i].data == data;
      assert (log + [f])[i] == log[i];
    }
  }

  lemma AnsweredBy(log: seq<Frame>, f: Frame)
    requires f in log
    ensures Answered(log, f.id, f.status, f.data)
  {
  }

  // Steps of a caller.

  lemma CallerKeepsOwnPending(s: State, c: nat, step: CallerStep)
    requires CallerEnabled(s, c, step) && CallOk(s, c)
    ensures var t := ApplyCaller(s, c, step); c in t.calls && PendingOk(t.pending, c, t.calls[c])
  {
    hide DoneOk, MuOk, FreshId;
  }

  lemma CallerKeepsPending(s: State, c: nat, step: CallerStep, d: nat)
    requires Inv(s) && CallerEnabled(s, c, step) && d in s.calls
    ensures var t := ApplyCaller(s, c, step); d in t.calls && PendingOk(t.pending, d, t.calls[d])
  {
    hide DoneOk, MuOk, ReaderOk, WakerOk, DistinctIds;
    assert CallOk(s, c) && CallOk(s, d);
    if c == d {
      CallerKeepsOwnPending(s, c, step);
    } else {
      CallerFrame(s, c, step);
      CallerPending(s, c, step);
      PutOwnId(s, c, step);
      hide ApplyCaller, CallerEnabled, CallsOk;
    }
  }

  /** A caller registers under an id that is free. */
  lemma PutOwnId(s: State, c: nat, step: CallerStep)
    requires CallerEnabled(s, c, step) && CallOk(s, c)
    ensures step.Put? ==> s.calls[c].id !in s.pending
    ensures step.Remove? && s.calls[c].id in s.pending ==> s.pending[s.calls[c].id] == c
  {
    hide DoneOk, MuOk, PendingOk, FreshId;
  }

  /** A caller's step on its own call, leaving `done` and what it says. */
  lemma CallerSays(s: State, c: nat, step: CallerStep)
    requires CallerEnabled(s, c, step)
    ensures var k, k' := s.calls[c], ApplyCaller(s, c, step).calls[c];
      k'.done == k.done && k'.dones == k.dones && k'.status == k.status && k'.data == k.data
      && (k'.id == k.id || step.Fetch?) && (k'.left == k.left || step.Remove?) && (k'.ok == k.ok || step.Check?)
      && (k'.pc.Returned? ==> step.Return? || step.Refuse?)
  {
    hide FreshId;
  }

  lemma RemoveKeepsDone(s: State, c: nat)
    requires CallerEnabled(s, c, Remove) && CallOk(s, c)
    ensures var t := ApplyCaller(s, c, Remove); DoneOk(t.calls[c], Woken(t.pmu, t.wakers, c), Taken(t.reader, c), t.log)
  {
    hide Answered, Taken;
    if s.calls[c].left == [] { AlreadyLeft(s.calls[c].left); }
  }

  lemma CheckKeepsDone(s: State, c: nat, timedOut: bool)
    requires CallerEnabled(s, c, Check(timedOut)) && CallOk(s, c)
    ensures var t := ApplyCaller(s, c, Check(timedOut)); DoneOk(t.calls[c], Woken(t.pmu, t.wakers, c), Taken(t.reader, c), t.log)
  {
    hide Answered, Taken, Woken, MuOk, IdOk, PendingOk;
  }

  lemma ReturnKeepsDone(s: State, c: nat)
    requires CallerEnabled(s, c, Return) && CallOk(s, c)
    ensures var t := ApplyCaller(s, c, Return); DoneOk(t.calls[c], Woken(t.pmu, t.wakers, c), Taken(t.reader, c), t.log)
  {
    hide Answered, Taken, Woken, MuOk, IdOk, PendingOk;
  }

  lemma CallerKeepsOwnDone(s: State, c: nat, step: CallerStep)
    requires CallerEnabled(s, c, step) && CallOk(s, c)
    ensures var t := ApplyCaller(s, c, step); c in t.calls && DoneOk(t.calls[c], Woken(t.pmu, t.wakers, c), Taken(t.reader, c), t.log)
  {
    hide Answered, Taken, FreshId;
    match step {
      case Remove => RemoveKeepsDone(s, c);
      case Check(timedOut) => CheckKeepsDone(s, c, timedOut);
      case Return => ReturnKeepsDone(s, c);
      case _ => CallerSays(s, c, step);
    }
  }

  lemma CallerKeepsOwnMu(s: State, c: nat, step: CallerStep)
    requires CallerEnabled(s, c, step) && MuOk(c, s.calls[c], s.pmu, s.reader, s.wakers)
    ensures var t := ApplyCaller(s, c, step); c in t.calls && MuOk(c, t.calls[c], t.pmu, t.reader, t.wakers)
  {
    hide FreshId;
  }

  lemma CallerKeepsDone(s: State, c: nat, step: CallerStep, d: nat)
    requires Inv(s) && CallerEnabled(s, c, step) && d in s.calls
    ensures var t := ApplyCaller(s, c, step); d in t.calls && DoneOk(t.calls[d], Woken(t.pmu, t.wakers, d), Taken(t.reader, d), t.log)
  {
    hide DistinctIds, Answered, ReaderOk, WakerOk, PendingKeys;
    if d == c {
      CallerKeepsOwnDone(s, c, step);
    } else {
      CallerFrame(s, c, step);
      hide ApplyCaller, PendingOk, IdOk, CallerEnabled;
    }
  }

  lemma CallerKeepsMu(s: State, c: nat, step: CallerStep, d: nat)
    requires Inv(s) && CallerEnabled(s, c, step) && d in s.calls
    ensures var t := ApplyCaller(s, c, step); d in t.calls && MuOk(d, t.calls[d], t.pmu, t.reader, t.wakers)
  {
    hide DoneOk, PendingOk, IdOk, DistinctIds, PendingKeys, ReaderOk, WakerOk;
    if d == c {
      CallerKeepsOwnMu(s, c, step);
    } else {
      CallerFrame(s, c, step);
      hide ApplyCaller, CallerEnabled;
    }
  }

  lemma CallerKeepsId(s: State, c: nat, step: CallerStep, d: nat)
    requires Inv(s) && CallerEnabled(s, c, step) && d in s.calls
    ensures var t := ApplyCaller(s, c, step); d in t.calls && IdOk(t.pending, d, t.calls[d])
  {
    hide DoneOk, PendingOk, MuOk, ReaderOk, WakerOk;
  }

  /** A caller's step changes `pending` by at most its own entry. */
  lemma CallerPending(s: State, c: nat, step: CallerStep)
    requires CallerEnabled(s, c, step)
    ensures var t, k := ApplyCaller(s, c, step), s.calls[c];
      && (t.pending == s.pending || (step.Put? && t.pending == s.pending[k.id := c]) || (step.Remove? && t.pending == s.pending - {k.id}))
      && (step.Fetch? ==> FreshId(s) && t.calls[c].id == s.next_id % BASE)
      && (Live(t.calls[c]) ==> Live(k) || step.Fetch?)
  {
    hide FreshId;
  }

  lemma CallerKeepsIds(s: State, c: nat, step: CallerStep)
    requires Inv(s) && CallerEnabled(s, c, step)
    ensures DistinctIds(ApplyCaller(s, c, step).calls)
  {
    CallerFrame(s, c, step);
    CallerPending(s, c, step);
    CallerSays(s, c, step);
    hide ApplyCaller, CallerEnabled, CallsOk, PendingKeys, ReaderOk, WakerOk;
  }

  lemma CallerKeepsKeys(s: State, c: nat, step: CallerStep)
    requires Inv(s) && CallerEnabled(s, c, step)
    ensures var t := ApplyCaller(s, c, step); PendingKeys(t.pending, t.calls) && DistinctIds(t.calls)
  {
    CallerKeepsIds(s, c, step);
    CallerFrame(s, c, step);
    CallerPending(s, c, step);
    CallerSays(s, c, step);
    assert PendingOk(s.pending, c, s.calls[c]) by { assert CallOk(s, c); }
    if step.Fetch? { assert s.calls[c].pc.Idle?; }
    hide ApplyCaller, CallerEnabled, CallsOk, ReaderOk, WakerOk, DistinctIds, FreshId;
  }

  /** A call the reader has taken stays taken. */
  lemma CallerKeepsTaken(s: State, c: nat, step: CallerStep)
    requires CallerEnabled(s, c, step) && CallOk(s, c) && !Unregistered(s.calls[c]) && s.calls[c].left == [ByReader]
    ensures var k, k' := s.calls[c], ApplyCaller(s, c, step).calls[c]; k'.id == k.id && k'.left == k.left && !Unregistered(k')
  {
    hide FreshId, DoneOk, MuOk;
  }

  lemma CallerKeepsIo(s: State, c: nat, step: CallerStep)
    requires Inv(s) && CallerEnabled(s, c, step)
    ensures var t := ApplyCaller(s, c, step); ReaderOk(t.reader, t.pmu, t.calls, t.log) && (t.pmu.Caller? ==> t.pmu.c in t.calls) && (t.pmu.Waker? ==> t.pmu.w in t.wakers)
  {
    CallerFrame(s, c, step);
    assert CallOk(s, c);
    if !Unregistered(s.calls[c]) && s.calls[c].left == [ByReader] { CallerKeepsTaken(s, c, step); }
    hide ApplyCaller, CallerEnabled, DoneOk, WakerOk, DistinctIds, PendingKeys, PendingOk, IdOk, CallsOk;
  }

  lemma CallerKeepsWaking(s: State, c: nat, step: CallerStep, v: nat)
    requires Inv(s) && CallerEnabled(s, c, step) && v in s.wakers
    ensures var t := ApplyCaller(s, c, step); v in t.wakers && WakerOk(v, t.wakers[v], t.pmu, t.pending, t.calls)
  {
    hide DoneOk, PendingOk, IdOk, DistinctIds, PendingKeys, ReaderOk;
  }

  // Steps of the I/O thread.

  lemma ReaderKeepsPending(s: State, step: ReaderStep, d: nat)
    requires Inv(s) && ReaderEnabled(s, step) && d in s.calls
    ensures var t := ApplyReader(s, step); d in t.calls && PendingOk(t.pending, d, t.calls[d])
  {
    hide DoneOk, MuOk, WakerOk, DistinctIds;
  }

  lemma ReaderKeepsDone(s: State, step: ReaderStep, d: nat)
    requires Inv(s) && ReaderEnabled(s, step) && d in s.calls
    ensures var t := ApplyReader(s, step); d in t.calls && DoneOk(t.calls[d], Woken(t.pmu, t.wakers, d), Taken(t.reader, d), t.log)
  {
    hide DistinctIds, WakerOk, Answered;
    match step {
      case Receive(f) => AnsweredMore(s.log, f, s.calls[d].id, s.calls[d].status, s.calls[d].data);
      case LookUp =>
        if s.reader.f.id in s.pending {
          var c := s.pending[s.reader.f.id];
          AlreadyLeft(s.calls[c].left);
          assert s.calls[c].left == [] && !Woken(s.pmu, s.wakers, c);
        }
      case Set => AnsweredBy(s.log, s.reader.f);
      case _ =>
    }
  }

  lemma ReaderKeepsMu(s: State, step: ReaderStep, d: nat)
    requires Inv(s) && ReaderEnabled(s, step) && d in s.calls
    ensures var t := ApplyReader(s, step); d in t.calls && MuOk(d, t.calls[d], t.pmu, t.reader, t.wakers)
  {
    hide DoneOk, PendingOk, IdOk, DistinctIds, WakerOk;
  }

  lemma ReaderKeepsId(s: State, step: ReaderStep, d: nat)
    requires Inv(s) && ReaderEnabled(s, step) && d in s.calls
    ensures var t := ApplyReader(s, step); d in t.calls && IdOk(t.pending, d, t.calls[d])
  {
    hide DoneOk, PendingOk, MuOk, ReaderOk, WakerOk;
  }

  lemma ReaderKeepsKeys(s: State, step: ReaderStep)
    requires Inv(s) && ReaderEnabled(s, step)
    ensures var t := ApplyReader(s, step); PendingKeys(t.pending, t.calls) && DistinctIds(t.calls)
  {
    hide DoneOk, MuOk, ReaderOk, WakerOk;
  }

  lemma ReaderKeepsIo(s: State, step: ReaderStep)
    requires Inv(s) && ReaderEnabled(s, step)
    ensures var t := ApplyReader(s, step); ReaderOk(t.reader, t.pmu, t.calls, t.log) && (t.pmu.Caller? ==> t.pmu.c in t.calls) && (t.pmu.Waker? ==> t.pmu.w in t.wakers)
  {
    hide DoneOk, WakerOk, DistinctIds;
  }

  lemma ReaderKeepsWaking(s: State, step: ReaderStep, v: nat)
    requires Inv(s) && ReaderEnabled(s, step) && v in s.wakers
    ensures var t := ApplyReader(s, step); v in t.wakers && WakerOk(v, t.wakers[v], t.pmu, t.pending, t.calls)
  {
    hide DoneOk, PendingOk, IdOk, DistinctIds, PendingKeys;
  }

  // Steps of a thread that wakes every call.

  lemma WakerKeepsPending(s: State, w: nat, step: WakerStep, d: nat)
    requires Inv(s) && WakerEnabled(s, w, step) && d in s.calls
    ensures var t := ApplyWaker(s, w, step); d in t.calls && PendingOk(t.pending, d, t.calls[d])
  {
    hide DoneOk, MuOk, ReaderOk, WakerOk, DistinctIds;
    if step == Clear { InMembers(s, d); }
  }

  lemma WakerKeepsDone(s: State, w: nat, step: WakerStep, d: nat)
    requires Inv(s) && WakerEnabled(s, w, step) && d in s.calls
    ensures var t := ApplyWaker(s, w, step); d in t.calls && DoneOk(t.calls[d], Woken(t.pmu, t.wakers, d), Taken(t.reader, d), t.log)
  {
    hide DistinctIds, Answered, ReaderOk, IdOk;
    InMembers(s, d);
    if step == Clear && d in Members(s.pending) {
      AlreadyLeft(s.calls[d].left);
      assert s.pmu == Waker(w) && Woken(s.pmu, s.wakers, d);
    }
  }

  lemma WakerKeepsMu(s: State, w: nat, step: WakerStep, d: nat)
    requires Inv(s) && WakerEnabled(s, w, step) && d in s.calls
    ensures var t := ApplyWaker(s, w, step); d in t.calls && MuOk(d, t.calls[d], t.pmu, t.reader, t.wakers)
  {
    hide DoneOk, PendingOk, IdOk, DistinctIds, PendingKeys, ReaderOk;
  }

  lemma WakerKeepsId(s: State, w: nat, step: WakerStep, d: nat)
    requires Inv(s) && WakerEnabled(s, w, step) && d in s.calls
    ensures var t := ApplyWaker(s, w, step); d in t.calls && IdOk(t.pending, d, t.calls[d])
  {
    hide DoneOk, PendingOk, MuOk, ReaderOk, WakerOk;
  }

  lemma WakerKeepsKeys(s: State, w: nat, step: WakerStep)
    requires Inv(s) && WakerEnabled(s, w, step)
    ensures var t := ApplyWaker(s, w, step); PendingKeys(t.pending, t.calls) && DistinctIds(t.calls)
  {
    hide DoneOk, MuOk, ReaderOk, WakerOk;
  }

  lemma WakerKeepsIo(s: State, w: nat, step: WakerStep)
    requires Inv(s) && WakerEnabled(s, w, step)
    ensures var t := ApplyWaker(s, w, step); ReaderOk(t.reader, t.pmu, t.calls, t.log) && (t.pmu.Caller? ==> t.pmu.c in t.calls) && (t.pmu.Waker? ==> t.pmu.w in t.wakers)
  {
    hide DoneOk, IdOk, DistinctIds;
    if step == Clear && (s.reader.Found? || s.reader.Setting?) { InMembers(s, s.reader.c); }
  }

  lemma WakerKeepsWaking(s: State, w: nat, step: WakerStep, v: nat)
    requires Inv(s) && WakerEnabled(s, w, step) && v in s.wakers
    ensures var t := ApplyWaker(s, w, step); v in t.wakers && WakerOk(v, t.wakers[v], t.pmu, t.pending, t.calls)
  {
    hide DoneOk, PendingOk, IdOk, DistinctIds, PendingKeys, ReaderOk;
  }

  /** Every step keeps the invariant. */
  lemma StepKeeps(s: State, step: Step)
    requires Inv(s) && Enabled(s, step)
    ensures Inv(Apply(s, step))
  {
    hide PendingOk, DoneOk, MuOk, IdOk, PendingKeys, DistinctIds, ReaderOk, WakerOk, Woken, Taken, ApplyCaller, ApplyReader, ApplyWaker;
    SameThreads(s, step);
    var t := Apply(s, step);
    match step {
      case OfCaller(c, cs) =>
        CallerKeepsKeys(s, c, cs);
        CallerKeepsIo(s, c, cs);
        forall d | d in s.calls
          ensures CallOk(t, d)
        {
          CallerKeepsPending(s, c, cs, d);
          CallerKeepsDone(s, c, cs, d);
          CallerKeepsMu(s, c, cs, d);
          CallerKeepsId(s, c, cs, d);
        }
        forall v | v in s.wakers
          ensures WakerOk(v, t.wakers[v], t.pmu, t.pending, t.calls)
        {
          CallerKeepsWaking(s, c, cs, v);
        }
      case OfReader(rs) =>
        ReaderKeepsKeys(s, rs);
        ReaderKeepsIo(s, rs);
        forall d | d in s.calls
          ensures CallOk(t, d)
        {
          ReaderKeepsPending(s, rs, d);
          ReaderKeepsDone(s, rs, d);
          ReaderKeepsMu(s, rs, d);
          ReaderKeepsId(s, rs, d);
        }
        forall v | v in s.wakers
          ensures WakerOk(v, t.wakers[v], t.pmu, t.pending, t.calls)
        {
          ReaderKeepsWaking(s, rs, v);
        }
      case OfWaker(w, ws) =>
        WakerKeepsKeys(s, w, ws);
        WakerKeepsIo(s, w, ws);
        forall d | d in s.calls
          ensures CallOk(t, d)
        {
          WakerKeepsPending(s, w, ws, d);
          WakerKeepsDone(s, w, ws, d);
          WakerKeepsMu(s, w, ws, d);
          WakerKeepsId(s, w, ws, d);
        }
        forall v | v in s.wakers
          ensures WakerOk(v, t.wakers[v], t.pmu, t.pending, t.calls)
        {
          WakerKeepsWaking(s, w, ws, v);
        }
      case Connect =>
    }
  }

  lemma SameThreads(s: State, step: Step)
    requires Enabled(s, step)
    ensures Apply(s, step).calls.Keys == s.calls.Keys && Apply(s, step).wakers.Keys == s.wakers.Keys
  {
    match step {
      case OfCaller(c, cs) =>
        hide ApplyReader, ApplyWaker;
        CallerFrame(s, c, cs);
        hide ApplyCaller;
      case OfReader(rs) => hide ApplyCaller, ApplyWaker;
      case OfWaker(w, ws) => hide ApplyCaller, ApplyReader;
      case Connect =>
    }
  }

  // -------------------------------------------------------------------------------------
  // Over all runs

  /** The states of a run, each one step after the last. */
  ghost predicate IsRun(states: seq<State>, steps: seq<Step>) {
    && |states| == |steps| + 1 && Init(states[0])
    && (forall i :: 0 <= i < |steps| ==> Enabled(states[i], steps[i]) && states[i + 1] == Apply(states[i], steps[i]))
  }

  lemma {:induction false} RunKeeps(states: seq<State>, steps: seq<Step>, i: nat)
    requires IsRun(states, steps) && i < |states|
    ensures Inv(states[i])
  {
    hide Inv, Enabled, Apply, Init;
    if i == 0 {
      InitInv(states[0]);
    } else {
      RunKeeps(states, steps, i - 1);
      StepKeeps(states[i - 1], steps[i - 1]);
    }
  }

  /** In every reachable state: a call has left `pending` at most once, and only after it was
      registered; `done` has been set at most once, and exactly when the reader or a waker took
      the call out or is about to; a call that timed out is never completed. */
  lemma OwnershipOfCalls(states: seq<State>, steps: seq<Step>, i: nat, c: nat)
    requires IsRun(states, steps) && i < |states| && c in states[i].calls
    ensures var k := states[i].calls[c];
      && |k.left| <= 1 && k.dones <= 1 && (k.done <==> k.dones == 1)
      && (c in Members(states[i].pending) <==> !Unregistered(k) && k.left == [])
      && (k.left == [ByTimeout] ==> !k.done) && (k.left == [ByWakeAll] ==> k.done)
  {
    RunKeeps(states, steps, i);
    hide IsRun, MuOk, IdOk, ReaderOk, WakerOk, DistinctIds, Answered;
    assert CallOk(states[i], c);
    InMembers(states[i], c);
  }

  /** A call that returned 0 carries exactly the data of a frame with its own id and status 0
      that the I/O thread had received. */
  lemma SuccessIsAnswered(states: seq<State>, steps: seq<Step>, i: nat, c: nat)
    requires IsRun(states, steps) && i < |states| && c in states[i].calls
    requires states[i].calls[c].pc.Returned? && states[i].calls[c].pc.code == 0
    ensures exists f :: f in states[i].log && f.id == states[i].calls[c].id && f.status == 0 && f.data == states[i].calls[c].pc.rsp
  {
    RunKeeps(states, steps, i);
    hide IsRun, MuOk, IdOk, ReaderOk, WakerOk, DistinctIds, PendingOk, PendingKeys;
    var k, log := states[i].calls[c], states[i].log;
    assert CallOk(states[i], c);
    var j :| 0 <= j < |log| && log[j].id == k.id && log[j].status == 0 && log[j].data == k.data;
    assert log[j] in log;
  }

  /** What a call returns, in every reachable state. A call the I/O thread completed in time returns the
      data of a received frame with its id, and 0 exactly for status 0; every other one returns 1 and
      nothing, and one that was refused was never registered. */
  lemma ReturnOfCall(states: seq<State>, steps: seq<Step>, i: nat, c: nat)
    requires IsRun(states, steps) && i < |states| && c in states[i].calls && states[i].calls[c].pc.Returned?
    ensures var k := states[i].calls[c];
      if k.ok && k.left == [ByReader] then
        exists f :: f in states[i].log && f.id == k.id && k.pc.rsp == f.data && k.pc.code == (if f.status == 0 then 0 else 1)
      else
        k.pc.rsp == [] && (k.pc.code == 1 || (k.pc.code == NOT_CONNECTED && k.left == []))
  {
    RunKeeps(states, steps, i);
    hide IsRun, MuOk, IdOk, ReaderOk, WakerOk, DistinctIds, PendingKeys;
    var k, log := states[i].calls[c], states[i].log;
    assert CallOk(states[i], c);
    if k.ok && k.left == [ByReader] {
      var j :| 0 <= j < |log| && log[j].id == k.id && log[j].status == k.status && log[j].data == k.data;
      assert log[j] in log;
    }
  }

  // Why a call fails.

  predicate SecondWait(pc: CallerPc) {
    (pc.Wait? || pc.Checking? || pc.Sleeping?) && pc.n == 2
  }

  predicate Ending(k: Call) {
    k.pc.Finish? || k.pc.Finishing? || (k.pc.Returned? && k.pc.code != NOT_CONNECTED)
  }

  /** How far a call has come shows who has taken it out of `pending`. */
  predicate PhaseOk(k: Call) {
    && (SecondWait(k.pc) ==> k.left == [ByReader] || k.left == [ByWakeAll])
    && (Ending(k) && !k.ok ==> k.left == [ByTimeout] || k.left == [ByReader])
    && (k.left == [ByTimeout] ==> Ending(k) && !k.ok) && (!Ending(k) ==> !k.ok)
    && (k.pc.Wait? || k.pc.Checking? || k.pc.Sleeping? ==> k.pc.n == 1 || k.pc.n == 2)
  }

  /** The step at which a caller sees its n-th wait time out before the call is done. */
  ghost predicate TimesOut(s: State, step: Step, c: nat, n: nat) {
    step == OfCaller(c, Check(true)) && c in s.calls && s.calls[c].pc == Checking(n) && !s.calls[c].done
  }

  ghost predicate TimedOut(states: seq<State>, steps: seq<Step>, i: nat, c: nat, n: nat)
    requires i <= |steps| < |states|
  {
    exists j :: 0 <= j < i && TimesOut(states[j], steps[j], c, n)
  }

  /** Past the first wait without success. */
  predicate Late(k: Call) {
    k.pc.Reclaim? || k.pc.Reclaiming? || SecondWait(k.pc) || (Ending(k) && !k.ok)
  }

  /** Past the second, too. */
  predicate VeryLate(k: Call) {
    Ending(k) && !k.ok && k.left == [ByReader]
  }

  /** Late calls have seen their waits time out. */
  ghost predicate HistoryOk(states: seq<State>, steps: seq<Step>, i: nat, c: nat, k: Call)
    requires i <= |steps| < |states|
  {
    (Late(k) ==> TimedOut(states, steps, i, c, 1)) && (VeryLate(k) ==> TimedOut(states, steps, i, c, 2))
  }

  /** What other threads do to a call: complete it, or take it out of `pending`. */
  predicate Touched(k: Call, k': Call) {
    k'.pc == k.pc && k'.ok == k.ok && (k'.left == k.left || (k.left == [] && (k'.left == [ByReader] || k'.left == [ByWakeAll])))
  }

  lemma ReaderTouches(s: State, step: ReaderStep, c: nat)
    requires Inv(s) && ReaderEnabled(s, step) && c in s.calls
    ensures c in ApplyReader(s, step).calls && Touched(s.calls[c], ApplyReader(s, step).calls[c])
  {
    hide DistinctIds, DoneOk, MuOk, IdOk, WakerOk;
    assert CallOk(s, c);
    if step.LookUp? && s.reader.f.id in s.pending && s.pending[s.reader.f.id] == c { AlreadyLeft(s.calls[c].left); }
  }

  lemma WakerTouches(s: State, w: nat, step: WakerStep, c: nat)
    requires Inv(s) && WakerEnabled(s, w, step) && c in s.calls
    ensures c in ApplyWaker(s, w, step).calls && Touched(s.calls[c], ApplyWaker(s, w, step).calls[c])
  {
    InMembers(s, c);
    hide DistinctIds, DoneOk, MuOk, IdOk, ReaderOk, PendingOk, WakerOk, PendingKeys;
    if step.Clear? && c in Members(s.pending) { AlreadyLeft(s.calls[c].left); }
  }

  lemma RemovePhase(s: State, c: nat)
    requires CallerEnabled(s, c, Remove) && CallOk(s, c) && PhaseOk(s.calls[c])
    ensures PhaseOk(ApplyCaller(s, c, Remove).calls[c])
  {
    hide Answered, MuOk, Woken, Taken, DoneOk;
    TakenOut(s.pending, c, s.calls[c]);
    if s.calls[c].left == [] { AlreadyLeft(s.calls[c].left); }
  }

  lemma CallerPhase(s: State, c: nat, step: CallerStep)
    requires CallerEnabled(s, c, step) && CallOk(s, c) && PhaseOk(s.calls[c])
    ensures c in ApplyCaller(s, c, step).calls && PhaseOk(ApplyCaller(s, c, step).calls[c])
  {
    hide FreshId, Answered, MuOk, Woken, Taken;
    match step {
      case Remove => RemovePhase(s, c);
      case _ => CallerSays(s, c, step);
    }
  }

  lemma TakenOut(pending: map<int, nat>, c: nat, k: Call)
    requires PendingOk(pending, c, k) && !Unregistered(k)
    ensures k.left == [] || k.left == [ByReader] || k.left == [ByTimeout] || k.left == [ByWakeAll]
  {
    if k.left != [] {
      assert k.left == [k.left[0]];
      match k.left[0] {
        case ByReader =>
        case ByTimeout =>
        case ByWakeAll =>
      }
    }
  }

  /** A step is the call's own caller's, or only touches it. */
  lemma OwnOrTouched(s: State, step: Step, c: nat)
    requires Inv(s) && Enabled(s, step) && c in s.calls
    ensures c in Apply(s, step).calls
    ensures (step.OfCaller? && step.c == c) || Touched(s.calls[c], Apply(s, step).calls[c])
  {
    hide Inv, ApplyCaller, ApplyReader, ApplyWaker;
    match step {
      case OfCaller(d, cs) => CallerFrame(s, d, cs);
      case OfReader(rs) => ReaderTouches(s, rs, c);
      case OfWaker(w, ws) => WakerTouches(s, w, ws, c);
      case Connect =>
    }
  }

  lemma PhaseKept(s: State, step: Step, c: nat)
    requires Inv(s) && Enabled(s, step) && c in s.calls && PhaseOk(s.calls[c])
    ensures c in Apply(s, step).calls && PhaseOk(Apply(s, step).calls[c])
  {
    OwnOrTouched(s, step, c);
    assert CallOk(s, c);
    hide CallOk, Inv, ApplyCaller, ApplyReader, ApplyWaker, CallerEnabled, ReaderEnabled, WakerEnabled;
    if step.OfCaller? && step.c == c { CallerPhase(s, c, step.cs); }
  }

  lemma TimedOutLater(states: seq<State>, steps: seq<Step>, i: nat, c: nat, n: nat)
    requires i < |steps| < |states|
    ensures TimedOut(states, steps, i, c, n) || TimesOut(states[i], steps[i], c, n) ==> TimedOut(states, steps, i + 1, c, n)
  {
  }

  lemma LeftBy(left: seq<By>)
    ensures left + [ByTimeout] != [ByReader]
  {
    assert (left + [ByTimeout])[|left|] == ByTimeout;
    if left != [] { assert |left + [ByTimeout]| >= 2; }
  }

  /** A caller's step makes its call late only by a wait that times out. */
  lemma CallerLate(s: State, c: nat, step: CallerStep)
    requires CallerEnabled(s, c, step) && PhaseOk(s.calls[c])
    ensures var k, k' := s.calls[c], ApplyCaller(s, c, step).calls[c];
      && (Late(k') ==> Late(k) || TimesOut(s, OfCaller(c, step), c, 1))
      && (VeryLate(k') ==> VeryLate(k) || TimesOut(s, OfCaller(c, step), c, 2))
  {
    hide FreshId;
    LeftBy(s.calls[c].left);
  }

  lemma HistoryKept(states: seq<State>, steps: seq<Step>, i: nat, c: nat)
    requires i < |steps| < |states| && Enabled(states[i], steps[i]) && states[i + 1] == Apply(states[i], steps[i])
    requires Inv(states[i]) && c in states[i].calls && PhaseOk(states[i].calls[c])
    requires HistoryOk(states, steps, i, c, states[i].calls[c])
    ensures c in states[i + 1].calls && HistoryOk(states, steps, i + 1, c, states[i + 1].calls[c])
  {
    OwnOrTouched(states[i], steps[i], c);
    assert CallOk(states[i], c);
    TimedOutLater(states, steps, i, c, 1);
    TimedOutLater(states, steps, i, c, 2);
    hide CallOk, Inv, ApplyCaller, ApplyReader, ApplyWaker, CallerEnabled, ReaderEnabled, WakerEnabled, TimedOut;
    if steps[i].OfCaller? && steps[i].c == c { CallerLate(states[i], c, steps[i].cs); }
    hide TimesOut;
  }

  lemma {:induction false} RunHistory(states: seq<State>, steps: seq<Step>, i: nat, c: nat)
    requires IsRun(states, steps) && i < |states| && c in states[i].calls
    ensures PhaseOk(states[i].calls[c]) && HistoryOk(states, steps, i, c, states[i].calls[c])
  {
    hide Inv, Enabled, Apply, PhaseOk, HistoryOk;
    if i > 0 {
      SameThreads(states[i - 1], steps[i - 1]);
      RunKeeps(states, steps, i - 1);
      RunHistory(states, steps, i - 1, c);
      PhaseKept(states[i - 1], steps[i - 1], c);
      HistoryKept(states, steps, i - 1, c);
    } else {
      Begins(states, steps, c);
    }
  }

  lemma Begins(states: seq<State>, steps: seq<Step>, c: nat)
    requires IsRun(states, steps) && c in states[0].calls
    ensures PhaseOk(states[0].calls[c]) && HistoryOk(states, steps, 0, c, states[0].calls[c]) && states[0].calls[c].pc.Idle?
  {
  }

  /** A registered call fails without an answer only after timing out: once if it took itself out of
      `pending`, twice if the I/O thread had. */
  lemma FailureIsTimeout(states: seq<State>, steps: seq<Step>, i: nat, c: nat)
    requires IsRun(states, steps) && i < |states| && c in states[i].calls
    requires var k := states[i].calls[c]; k.pc.Returned? && k.pc.code != NOT_CONNECTED && !k.ok
    ensures var k := states[i].calls[c];
      && (k.left == [ByTimeout] || k.left == [ByReader]) && TimedOut(states, steps, i, c, 1)
      && (k.left == [ByReader] ==> TimedOut(states, steps, i, c, 2))
  {
    hide IsRun, TimedOut;
    RunHistory(states, steps, i, c);
  }

  /** A step at which a call is refused because there is no connection. */
  ghost predicate Refuses(s: State, step: Step, c: nat) {
    step == OfCaller(c, Refuse) && !s.connected
  }

  lemma CallerRefused(s: State, c: nat, step: CallerStep)
    requires CallerEnabled(s, c, step)
    ensures var pc, pc' := s.calls[c].pc, ApplyCaller(s, c, step).calls[c].pc;
      pc'.Returned? && pc'.code == NOT_CONNECTED ==> pc == pc' || Refuses(s, OfCaller(c, step), c)
  {
    hide FreshId;
  }

  /** A call returns that it is not connected only if it was called without a connection. */
  lemma {:induction false} RefusedWithoutConnection(states: seq<State>, steps: seq<Step>, i: nat, c: nat)
    requires IsRun(states, steps) && i < |states| && c in states[i].calls
    requires states[i].calls[c].pc.Returned? && states[i].calls[c].pc.code == NOT_CONNECTED
    ensures exists j :: 0 <= j < i && Refuses(states[j], steps[j], c)
  {
    if i == 0 {
      Begins(states, steps, c);
    } else {
      var s, step := states[i - 1], steps[i - 1];
      StepOfRun(states, steps, i - 1);
      RunKeeps(states, steps, i - 1);
      hide IsRun, Inv, ApplyCaller, ApplyReader, ApplyWaker, CallerEnabled, ReaderEnabled, WakerEnabled, Refuses;
      SameThreads(s, step);
      OwnOrTouched(s, step, c);
      if step.OfCaller? && step.c == c { CallerRefused(s, c, step.cs); }
      if !Refuses(s, step, c) { RefusedWithoutConnection(states, steps, i - 1, c); }
    }
  }

  // What the I/O thread delivers.

  /** A frame whose id a waiting call is registered under is taken for that call. */
  lemma FrameIsTaken(states: seq<State>, steps: seq<Step>, i: nat, f: Frame, c: nat)
    requires IsRun(states, steps) && i < |steps| && steps[i] == OfReader(LookUp) && states[i].reader == Looking(f)
    requires c in states[i].calls && c in Members(states[i].pending) && states[i].calls[c].id == f.id
    ensures states[i + 1].reader == Found(f, c) && states[i + 1].calls[c].left == [ByReader]
  {
    RunKeeps(states, steps, i);
    InMembers(states[i], c);
    hide IsRun, DoneOk, MuOk, IdOk, WakerOk, DistinctIds, ReaderOk;
    assert CallOk(states[i], c);
    assert Enabled(states[i], steps[i]) && states[i + 1] == Apply(states[i], steps[i]) by { StepOfRun(states, steps, i); }
    AlreadyLeft(states[i].calls[c].left);
  }

  lemma StepOfRun(states: seq<State>, steps: seq<Step>, i: nat)
    requires IsRun(states, steps) && i < |steps|
    ensures Enabled(states[i], steps[i]) && states[i + 1] == Apply(states[i], steps[i])
  {
  }

  lemma ReaderSays(s: State, step: ReaderStep, c: nat)
    requires Inv(s) && ReaderEnabled(s, step) && c in s.calls && s.calls[c].done
    ensures var t := ApplyReader(s, step);
      && c in t.calls && t.calls[c].done && t.calls[c].status == s.calls[c].status && t.calls[c].data == s.calls[c].data
  {
    assert CallOk(s, c);
    hide MuOk, IdOk, PendingOk, DistinctIds, Answered, WakerOk;
  }

  lemma WakerSays(s: State, w: nat, step: WakerStep, c: nat)
    requires Inv(s) && WakerEnabled(s, w, step) && c in s.calls && s.calls[c].done
    ensures var t := ApplyWaker(s, w, step);
      && c in t.calls && t.calls[c].done && t.calls[c].status == s.calls[c].status && t.calls[c].data == s.calls[c].data
  {
    assert CallOk(s, c);
    InMembers(s, c);
    hide MuOk, IdOk, PendingOk, DistinctIds, Answered, ReaderOk, PendingKeys;
  }

  /** Nothing changes what a completed call says. */
  lemma DoneStays(s: State, step: Step, c: nat)
    requires Inv(s) && Enabled(s, step) && c in s.calls && s.calls[c].done
    ensures c in Apply(s, step).calls
    ensures var k, k' := s.calls[c], Apply(s, step).calls[c]; k'.done && k'.status == k.status && k'.data == k.data
  {
    hide Inv, ApplyCaller, ApplyReader, ApplyWaker, CallerEnabled, ReaderEnabled, WakerEnabled;
    match step {
      case OfCaller(d, cs) =>
        CallerFrame(s, d, cs);
        CallerSays(s, d, cs);
      case OfReader(rs) => ReaderSays(s, rs, c);
      case OfWaker(w, ws) => WakerSays(s, w, ws, c);
      case Connect =>
    }
  }

  /** The frame it was taken for is what the call says from then on. */
  lemma {:induction false} FrameIsDelivered(states: seq<State>, steps: seq<Step>, i: nat, j: nat, f: Frame, c: nat)
    requires IsRun(states, steps) && i < j < |states| && steps[i] == OfReader(Set) && states[i].reader == Setting(f, c)
    ensures c in states[j].calls
    ensures var k := states[j].calls[c]; k.done && k.status == f.status && k.data == f.data
  {
    hide Inv, ApplyCaller, ApplyWaker, Enabled;
    StepOfRun(states, steps, j - 1);
    if j > i + 1 {
      FrameIsDelivered(states, steps, i, j - 1, f, c);
      RunKeeps(states, steps, j - 1);
      DoneStays(states[j - 1], steps[j - 1], c);
    } else {
      SetSays(states[i], f, c);
    }
  }

  lemma SetSays(s: State, f: Frame, c: nat)
    requires Enabled(s, OfReader(Set)) && s.reader == Setting(f, c)
    ensures c in Apply(s, OfReader(Set)).calls
    ensures var k := Apply(s, OfReader(Set)).calls[c]; k.done && k.status == f.status && k.data == f.data
  {
  }

  // -------------------------------------------------------------------------------------
  // Locks

  datatype Lock = PendingMu | CallMu(c: nat)

  predicate CallerWants(c: nat, k: Call, l: Lock) {
    match l
    case PendingMu => k.pc.Register? || k.pc.Reclaim?
    case CallMu(d) => d == c && (k.pc.Wait? || k.pc.Sleeping? || k.pc.Finish?)
  }

  predicate ReaderWants(pc: ReaderPc, l: Lock) {
    match l
    case PendingMu => pc.Got?
    case CallMu(d) => pc.Found? && pc.c == d
  }

  predicate WakerWants(pc: WakerPc, l: Lock) {
    match l
    case PendingMu => pc.Wanting?
    case CallMu(d) => pc.Reaching? && pc.c == d
  }

  predicate Wants(s: State, t: Who, l: Lock) {
    match t
    case Nobody => false
    case Caller(c) => c in s.calls && CallerWants(c, s.calls[c], l)
    case TheReader => ReaderWants(s.reader, l)
    case Waker(w) => w in s.wakers && WakerWants(s.wakers[w], l)
  }

  ghost predicate Has(s: State, t: Who, l: Lock) {
    t != Nobody && (if l == PendingMu then s.pmu == t else l.c in s.calls && s.calls[l.c].mu == t)
  }

  /** t cannot go on before u releases a lock. */
  ghost predicate BlockedBy(s: State, t: Who, u: Who) {
    exists l :: Wants(s, t, l) && Has(s, u, l)
  }

  /** No lock is waited for by its own holder, and whoever holds up a thread that itself holds
      somebody up is running: chains of waiting threads have at most two links, so there is no
      cycle between `pending_mu` and the calls' locks. */
  lemma NoLockCycle(states: seq<State>, steps: seq<Step>, i: nat, t: Who, u: Who, v: Who)
    requires IsRun(states, steps) && i < |states|
    ensures !BlockedBy(states[i], t, t)
    ensures !(BlockedBy(states[i], t, u) && BlockedBy(states[i], u, t))
    ensures BlockedBy(states[i], t, u) && BlockedBy(states[i], u, v) ==> forall x :: !BlockedBy(states[i], v, x)
  {
    RunKeeps(states, steps, i);
    hide IsRun, Inv, BlockedBy;
    if BlockedBy(states[i], t, t) { TwoLinks(states[i], t, t, t); }
    if BlockedBy(states[i], t, u) && BlockedBy(states[i], u, t) { TwoLinks(states[i], t, u, t); }
    if BlockedBy(states[i], t, u) && BlockedBy(states[i], u, v) { TwoLinks(states[i], t, u, v); }
  }

  lemma TwoLinks(s: State, t: Who, u: Who, v: Who)
    requires Inv(s) && BlockedBy(s, t, u) && BlockedBy(s, u, v)
    ensures forall x :: !BlockedBy(s, v, x)
  {
    hide Inv;
    var l :| Wants(s, t, l) && Has(s, u, l);
    var m :| Wants(s, u, m) && Has(s, v, m);
    if l == PendingMu {
      PendingHolderWants(s, u, m);
      CallHolderRuns(s, v, m.c);
    } else {
      CallHolderRuns(s, u, l.c);
    }
  }

  /** A thread that holds a call's lock waits for nothing. */
  lemma CallHolderRuns(s: State, u: Who, c: nat)
    requires Inv(s) && Has(s, u, CallMu(c))
    ensures forall l :: !Wants(s, u, l)
    ensures forall x :: !BlockedBy(s, u, x)
  {
    hide DoneOk, PendingOk, IdOk, DistinctIds, PendingKeys;
    assert CallOk(s, c);
  }

  /** A thread that holds `pending_mu` waits for calls' locks only. */
  lemma PendingHolderWants(s: State, u: Who, l: Lock)
    requires Inv(s) && Has(s, u, PendingMu) && Wants(s, u, l)
    ensures l.CallMu?
  {
    hide DoneOk, PendingOk, IdOk, DistinctIds, PendingKeys;
    if u.Caller? { assert CallOk(s, u.c); }
  }
}
