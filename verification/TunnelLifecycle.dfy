/** The life of HTTP tunnels under any interleaving: connect, read and write requests, failing
    requests that deregister and close, and the timeout sweep, which scans under a read lock and
    deletes under a later write lock. */
module TunnelLifecycle {

  type Uuid = nat
  type Tunnel = nat
  type Request = nat

  /** `Found`: the map lookup succeeded, the access is not recorded yet; `Using`: reading or writing;
      `Deregistering`: about to remove the tunnel from the map; `Closing`: about to close it. */
  datatype Phase =
    | Found(tunnel: Tunnel)
    | Using(tunnel: Tunnel)
    | Deregistering(tunnel: Tunnel)
    | Closing(tunnel: Tunnel)
    | Finished

  /** An entry a scan has collected: when it was looked at and the access time it had then. */
  datatype Pick = Pick(uuid: Uuid, tunnel: Tunnel, seen: int, lastAccess: int)

  /** `Started`: the time line is computed; `Scanning`: the read lock is held; `Scanned`: the read
      lock is released, the write lock not yet taken. */
  datatype Sweep =
    | Resting
    | Started(timeLine: int)
    | Scanning(timeLine: int, todo: set<Uuid>, picked: set<Pick>)
    | Scanned(timeLine: int, picked: set<Pick>)

  /** `uuidOf` and `lastAccess` cover every tunnel ever registered. */
  datatype State = State(
    timeout: int,
    now: int,
    table: map<Uuid, Tunnel>,
    uuidOf: map<Tunnel, Uuid>,
    lastAccess: map<Tunnel, int>,
    closed: set<Tunnel>,
    request: map<Request, Phase>,
    sweep: Sweep)

  datatype Step =
    | Tick(elapsed: nat)
    | Connect(tunnel: Tunnel, uuid: Uuid)
    | Lookup(r: Request, uuid: Uuid)
    | Touch(r: Request)
    | Succeed(r: Request)
    | Break(r: Request)
    | Remove(r: Request)
    | Close(r: Request, again: bool)
    | SweepStart
    | SweepLock
    | SweepVisit(uuid: Uuid)
    | SweepUnlock
    | SweepPurge

  function Init(timeout: int, now: int): State {
    State(timeout, now, map[], map[], map[], {}, map[], Resting)
  }

  /** A writer of the map has to wait while a scan holds the read lock. */
  predicate Writable(s: State) {
    !s.sweep.Scanning?
  }

  /** Fresh UUIDs: a new tunnel never gets the UUID of an earlier one. */
  predicate Enabled(s: State, step: Step) {
    match step
    case Tick(_) => true
    case Connect(t, u) => Writable(s) && t !in s.uuidOf && u !in s.uuidOf.Values
    case Lookup(r, u) => r !in s.request && u in s.table
    case Touch(r) => r in s.request && s.request[r].Found?
    case Succeed(r) => r in s.request && s.request[r].Using?
    case Break(r) => r in s.request && s.request[r].Using?
    case Remove(r) => Writable(s) && r in s.request && s.request[r].Deregistering? && s.request[r].tunnel in s.uuidOf
    case Close(r, _) => r in s.request && s.request[r].Closing?
    case SweepStart => s.sweep == Resting
    case SweepLock => s.sweep.Started?
    case SweepVisit(u) => s.sweep.Scanning? && u in s.sweep.todo && u in s.table && s.table[u] in s.lastAccess
    case SweepUnlock => s.sweep.Scanning? && s.sweep.todo == {}
    case SweepPurge => s.sweep.Scanned?
  }

  function Tunnels(picked: set<Pick>): set<Tunnel> {
    set p | p in picked :: p.tunnel
  }

  function Uuids(picked: set<Pick>): set<Uuid> {
    set p | p in picked :: p.uuid
  }

  function Apply(s: State, step: Step): State
    requires Enabled(s, step)
  {
    match step
    case Tick(d) => s.(now := s.now + d)
    case Connect(t, u) =>
      s.(table := s.table[u := t], uuidOf := s.uuidOf[t := u], lastAccess := s.lastAccess[t := s.now])
    case Lookup(r, u) => s.(request := s.request[r := Found(s.table[u])])
    case Touch(r) =>
      var t := s.request[r].tunnel;
      s.(lastAccess := s.lastAccess[t := s.now], request := s.request[r := Using(t)])
    case Succeed(r) => s.(request := s.request[r := Finished])
    case Break(r) => s.(request := s.request[r := Deregistering(s.request[r].tunnel)])
    case Remove(r) =>
      var t := s.request[r].tunnel;
      s.(table := s.table - {s.uuidOf[t]}, request := s.request[r := Closing(t)])
    case Close(r, again) =>
      var t := s.request[r].tunnel;
      s.(closed := s.closed + {t}, request := s.request[r := if again then Deregistering(t) else Finished])
    case SweepStart => s.(sweep := Started(s.now - s.timeout))
    case SweepLock => s.(sweep := Scanning(s.sweep.timeLine, s.table.Keys, {}))
    case SweepVisit(u) =>
      var t := s.table[u];
      var stale := s.lastAccess[t] < s.sweep.timeLine;
      s.(sweep := s.sweep.(todo := s.sweep.todo - {u},
                           picked := s.sweep.picked + if stale then {Pick(u, t, s.now, s.lastAccess[t])} else {}))
    case SweepUnlock => s.(sweep := Scanned(s.sweep.timeLine, s.sweep.picked))
    case SweepPurge =>
      s.(table := s.table - Uuids(s.sweep.picked), closed := s.closed + Tunnels(s.sweep.picked), sweep := Resting)
  }

  predicate Legal(s: State, steps: seq<Step>)
    decreases |steps|
  {
    steps == [] || (Enabled(s, steps[0]) && Legal(Apply(s, steps[0]), steps[1..]))
  }

  function Exec(s: State, steps: seq<Step>): State
    requires Legal(s, steps)
    decreases |steps|
  {
    if steps == [] then s else Exec(Apply(s, steps[0]), steps[1..])
  }

  // ---------- Invariants ----------

  predicate Registered(s: State, t: Tunnel) {
    t in s.uuidOf && t in s.lastAccess
  }

  predicate InTable(s: State, t: Tunnel) {
    t in s.uuidOf && s.uuidOf[t] in s.table && s.table[s.uuidOf[t]] == t
  }

  /** The map holds registered tunnels under their own UUIDs, and UUIDs are never shared. */
  ghost predicate OwnUuids(s: State) {
    && (forall u :: u in s.table ==> Registered(s, s.table[u]) && s.uuidOf[s.table[u]] == u)
    && (forall t, v :: t in s.uuidOf && v in s.uuidOf && s.uuidOf[t] == s.uuidOf[v] ==> t == v)
  }

  ghost predicate KnownTunnels(s: State) {
    && (forall t :: t in s.uuidOf ==> Registered(s, t))
    && (forall r :: r in s.request && !s.request[r].Finished? ==> Registered(s, s.request[r].tunnel))
  }

  ghost predicate Consistent(s: State) {
    OwnUuids(s) && KnownTunnels(s)
  }

  /** A tunnel in the map has never been closed, and one about to be closed has left the map. */
  ghost predicate OpenWhileListed(s: State) {
    && (forall t :: t in s.closed ==> t in s.uuidOf && !InTable(s, t))
    && (forall r :: r in s.request && s.request[r].Closing? ==> !InTable(s, s.request[r].tunnel))
  }

  /** A registered tunnel is in the map, or closed, or about to be closed by a request. */
  ghost predicate NoneForgotten(s: State) {
    forall t :: t in s.uuidOf ==>
      InTable(s, t) || t in s.closed || exists r :: r in s.request && s.request[r] == Closing(t)
  }

  function Picked(w: Sweep): set<Pick> {
    if w.Scanning? || w.Scanned? then w.picked else {}
  }

  /** What a scan has collected was idle for more than the timeout when it was looked at, and stands
      for the tunnel that was then in the map. */
  ghost predicate GoodPicks(s: State) {
    && (forall p :: p in Picked(s.sweep) ==>
          && Registered(s, p.tunnel) && s.uuidOf[p.tunnel] == p.uuid
          && p.seen - p.lastAccess > s.timeout && p.seen <= s.now)
    && (s.sweep.Started? || s.sweep.Scanning? ==> s.sweep.timeLine <= s.now - s.timeout)
    && (s.sweep.Scanning? ==> s.sweep.todo <= s.table.Keys)
  }

  /** Since it was looked at, a tunnel either has not been accessed or was accessed later than that. */
  ghost predicate PicksRemember(s: State) {
    forall p :: p in Picked(s.sweep) && p.tunnel in s.lastAccess ==>
      s.lastAccess[p.tunnel] == p.lastAccess || s.lastAccess[p.tunnel] >= p.seen
  }

  /** Whatever a scan has passed over and not collected has been accessed since the time line. */
  ghost predicate NoneMissed(s: State) {
    s.timeout >= 0 && (s.sweep.Scanning? || s.sweep.Scanned?) ==>
      && s.sweep.timeLine <= s.now
      && forall u :: u in s.table && s.table[u] in s.lastAccess ==>
           || (s.sweep.Scanning? && u in s.sweep.todo)
           || u in Uuids(s.sweep.picked)
           || s.lastAccess[s.table[u]] >= s.sweep.timeLine
  }

  ghost predicate Inv(s: State) {
    && Consistent(s) && OpenWhileListed(s) && NoneForgotten(s)
    && GoodPicks(s) && PicksRemember(s) && NoneMissed(s)
  }

  lemma StepKeepsOwnUuids(s: State, step: Step)
    requires OwnUuids(s) && Enabled(s, step)
    ensures OwnUuids(Apply(s, step))
  {
    hide Uuids, Tunnels;
    if step.Connect? {
      assert forall v :: v in s.uuidOf ==> s.uuidOf[v] in s.uuidOf.Values;
    }
  }

  lemma StepKeepsKnownTunnels(s: State, step: Step)
    requires Consistent(s) && Enabled(s, step)
    ensures KnownTunnels(Apply(s, step))
  {
    hide Uuids, Tunnels;
  }

  lemma StepKeepsConsistent(s: State, step: Step)
    requires Consistent(s) && Enabled(s, step)
    ensures Consistent(Apply(s, step))
  {
    StepKeepsOwnUuids(s, step);
    StepKeepsKnownTunnels(s, step);
  }

  lemma StepKeepsOpenWhileListed(s: State, step: Step)
    requires Consistent(s) && OpenWhileListed(s) && GoodPicks(s) && Enabled(s, step)
    ensures OpenWhileListed(Apply(s, step))
  {
    var s' := Apply(s, step);
    match step
    case Connect(t, u) =>
      assert forall v :: v in s.uuidOf ==> s.uuidOf[v] in s.uuidOf.Values;
    case SweepPurge =>
      forall t | t in Tunnels(s.sweep.picked) ensures t in s'.uuidOf && !InTable(s', t) {
        var p :| p in s.sweep.picked && p.tunnel == t;
        assert p in Picked(s.sweep) && p.uuid in Uuids(s.sweep.picked);
      }
    case _ =>
  }

  lemma StepKeepsNoneForgotten(s: State, step: Step)
    requires Consistent(s) && NoneForgotten(s) && GoodPicks(s) && Enabled(s, step)
    ensures NoneForgotten(Apply(s, step))
  {
    var s' := Apply(s, step);
    forall t | t in s'.uuidOf
      ensures InTable(s', t) || t in s'.closed || exists r :: r in s'.request && s'.request[r] == Closing(t)
    {
      if t in s.uuidOf && !InTable(s, t) && t !in s.closed {
        var r :| r in s.request && s.request[r] == Closing(t);
        assert t in s'.closed || s'.request[r] == Closing(t);
      } else if step.Connect? {
        assert forall v :: v in s.uuidOf ==> s.uuidOf[v] in s.uuidOf.Values;
      } else if step.Remove? {
        assert s'.request[step.r] == Closing(s.request[step.r].tunnel);
      } else if step.SweepPurge? && InTable(s, t) && !InTable(s', t) {
        var p :| p in s.sweep.picked && p.uuid == s.uuidOf[t];
        assert p in Picked(s.sweep);
        assert p.tunnel in Tunnels(s.sweep.picked);
      }
    }
  }

  lemma StepKeepsGoodPicks(s: State, step: Step)
    requires Consistent(s) && GoodPicks(s) && Enabled(s, step)
    ensures GoodPicks(Apply(s, step))
  {
    hide Uuids, Tunnels, InTable;
  }

  lemma StepKeepsPicksRemember(s: State, step: Step)
    requires GoodPicks(s) && PicksRemember(s) && Enabled(s, step)
    ensures PicksRemember(Apply(s, step))
  {
    hide Uuids, Tunnels, InTable;
    assert forall p :: p in Picked(s.sweep) ==> Registered(s, p.tunnel) && p.seen <= s.now;
  }

  lemma StepKeepsNoneMissed(s: State, step: Step)
    requires OwnUuids(s) && GoodPicks(s) && NoneMissed(s) && Enabled(s, step)
    ensures NoneMissed(Apply(s, step))
  {
    hide Tunnels, InTable;
    if step.SweepVisit? {
      var t := s.table[step.uuid];
      var p := Pick(step.uuid, t, s.now, s.lastAccess[t]);
      assert s.lastAccess[t] < s.sweep.timeLine ==> p in Apply(s, step).sweep.picked;
      assert Uuids(s.sweep.picked) <= Uuids(Apply(s, step).sweep.picked);
    }
  }

  lemma StepKeepsInv(s: State, step: Step)
    requires Inv(s) && Enabled(s, step)
    ensures Inv(Apply(s, step))
  {
    assert Consistent(s) ==> OwnUuids(s);
    hide Consistent, OwnUuids, OpenWhileListed, NoneForgotten, GoodPicks, PicksRemember, NoneMissed, Apply, Enabled;
    StepKeepsConsistent(s, step);
    StepKeepsOpenWhileListed(s, step);
    StepKeepsNoneForgotten(s, step);
    StepKeepsGoodPicks(s, step);
    StepKeepsPicksRemember(s, step);
    StepKeepsNoneMissed(s, step);
  }

  lemma {:induction false} RunKeepsInv(s: State, steps: seq<Step>)
    requires Inv(s) && Legal(s, steps)
    ensures Inv(Exec(s, steps))
    decreases |steps|
  {
    hide Inv, Apply, Enabled;
    if steps != [] {
      StepKeepsInv(s, steps[0]);
      RunKeepsInv(Apply(s, steps[0]), steps[1..]);
    }
  }

  // ---------- The theorems ----------

  lemma InitInv(timeout: int, now: int)
    ensures Inv(Init(timeout, now))
  {
  }

  predicate Quiescent(s: State) {
    s.sweep == Resting && forall r :: r in s.request ==> s.request[r].Finished?
  }

  /** In every run with fresh UUIDs: a tunnel in the map has never been closed; and when all requests
      and sweeps have come to rest, every tunnel ever registered is either in the map or closed, and
      not both. */
  lemma TunnelsAreListedOrClosed(timeout: int, now: int, steps: seq<Step>)
    requires Legal(Init(timeout, now), steps)
    ensures var s := Exec(Init(timeout, now), steps);
            && (forall t :: InTable(s, t) ==> t !in s.closed)
            && (Quiescent(s) ==> forall t :: t in s.uuidOf ==> (InTable(s, t) <==> t !in s.closed))
  {
    hide Apply, Enabled, GoodPicks, PicksRemember, NoneMissed;
    InitInv(timeout, now);
    RunKeepsInv(Init(timeout, now), steps);
  }

  lemma StaysOut(s: State, step: Step, t: Tunnel)
    requires Consistent(s) && Enabled(s, step) && t in s.uuidOf && !InTable(s, t)
    ensures t in Apply(s, step).uuidOf && !InTable(Apply(s, step), t)
  {
    hide Uuids, Tunnels;
    if step.Connect? {
      assert s.uuidOf[t] in s.uuidOf.Values;
    }
  }

  /** A tunnel that has left the map never returns to it. */
  lemma {:induction false} RemovedNeverReturns(s: State, steps: seq<Step>, t: Tunnel)
    requires Inv(s) && Legal(s, steps) && t in s.uuidOf && !InTable(s, t)
    ensures t in Exec(s, steps).uuidOf && !InTable(Exec(s, steps), t)
    decreases |steps|
  {
    hide Apply, Enabled, InTable, OpenWhileListed, NoneForgotten, GoodPicks, PicksRemember, NoneMissed;
    if steps != [] {
      StepKeepsInv(s, steps[0]);
      StaysOut(s, steps[0], t);
      RemovedNeverReturns(Apply(s, steps[0]), steps[1..], t);
    }
  }

  /** The delete phase of a sweep never removes another tunnel than the one its scan looked at, and
      every tunnel it removes had been idle for more than the timeout when the scan looked at it; and
      still is, unless it has been accessed since. */
  lemma SweepRemovesWhatItScanned(timeout: int, now: int, steps: seq<Step>, u: Uuid)
    requires Legal(Init(timeout, now), steps)
    requires var s := Exec(Init(timeout, now), steps); s.sweep.Scanned? && u in s.table
    ensures var s := Exec(Init(timeout, now), steps);
            && (u !in Apply(s, SweepPurge).table <==> exists p :: p in s.sweep.picked && p.uuid == u)
            && (forall p :: p in s.sweep.picked && p.uuid == u ==>
                  && s.table[u] == p.tunnel && p.seen - p.lastAccess > s.timeout && p.seen <= s.now
                  && p.tunnel in s.lastAccess
                  && (s.lastAccess[p.tunnel] == p.lastAccess ==> s.now - s.lastAccess[p.tunnel] > s.timeout))
            && (u !in Apply(s, SweepPurge).table ==> s.table[u] in Apply(s, SweepPurge).closed)
  {
    hide OpenWhileListed, NoneForgotten;
    InitInv(timeout, now);
    RunKeepsInv(Init(timeout, now), steps);
    var s := Exec(Init(timeout, now), steps);
    forall p | p in s.sweep.picked && p.uuid == u
      ensures s.table[u] == p.tunnel && p.seen - p.lastAccess > s.timeout && p.seen <= s.now
      ensures p.tunnel in s.lastAccess
      ensures p.tunnel in Tunnels(s.sweep.picked)
    {
      assert p in Picked(s.sweep);
    }
    assert u in Uuids(s.sweep.picked) <==> exists p :: p in s.sweep.picked && p.uuid == u;
  }

  /** When the promise of one timeout since the last access is broken: the delete phase closes every
      tunnel the scan collected, and if it follows within one timeout, such a tunnel has been accessed
      within the timeout if and only if it was accessed after the scan looked at it. */
  lemma ClosedTooEarlyIff(timeout: int, now: int, steps: seq<Step>, p: Pick)
    requires Legal(Init(timeout, now), steps)
    requires var s := Exec(Init(timeout, now), steps); s.sweep.Scanned? && p in s.sweep.picked
    ensures var s := Exec(Init(timeout, now), steps);
            && p.tunnel in Apply(s, SweepPurge).closed && p.tunnel in s.lastAccess
            && (s.now - p.seen <= s.timeout ==>
                  (s.now - s.lastAccess[p.tunnel] <= s.timeout <==> s.lastAccess[p.tunnel] != p.lastAccess))
  {
    hide Consistent, OpenWhileListed, NoneForgotten;
    InitInv(timeout, now);
    RunKeepsInv(Init(timeout, now), steps);
    var s := Exec(Init(timeout, now), steps);
    assert p in Picked(s.sweep) && p.tunnel in Tunnels(s.sweep.picked);
  }

  // ---------- What the times mean ----------

  /** The step records an access of the tunnel: it is registered, or a request has found it. */
  predicate Accesses(s: State, step: Step, t: Tunnel)
    requires Enabled(s, step)
  {
    (step.Connect? && step.tunnel == t) || (step.Touch? && s.request[step.r].tunnel == t)
  }

  predicate Untouched(s: State, steps: seq<Step>, t: Tunnel)
    requires Legal(s, steps)
    decreases |steps|
  {
    steps == [] || (!Accesses(s, steps[0], t) && Untouched(Apply(s, steps[0]), steps[1..], t))
  }

  lemma {:induction false} TimeStays(s: State, steps: seq<Step>, t: Tunnel)
    requires Legal(s, steps) && t in s.lastAccess && Untouched(s, steps, t)
    ensures t in Exec(s, steps).lastAccess && Exec(s, steps).lastAccess[t] == s.lastAccess[t]
    decreases |steps|
  {
    if steps != [] {
      assert Apply(s, steps[0]).lastAccess[t] == s.lastAccess[t];
      hide Apply, Enabled, Accesses;
      TimeStays(Apply(s, steps[0]), steps[1..], t);
    }
  }

  /** In every run, the access time of a tunnel is the time of its last registration or access. */
  lemma LastAccessIsLast(s: State, step: Step, steps: seq<Step>, t: Tunnel)
    requires Enabled(s, step) && Accesses(s, step, t)
    requires Legal(Apply(s, step), steps) && Untouched(Apply(s, step), steps, t)
    ensures var e := Exec(Apply(s, step), steps); t in e.lastAccess && e.lastAccess[t] == s.now
  {
    TimeStays(Apply(s, step), steps, t);
  }

  predicate LineIs(s: State, timeout: int, line: int) {
    s.timeout == timeout && (s.sweep == Resting || s.sweep.timeLine == line)
  }

  lemma {:induction false} LineStays(s: State, steps: seq<Step>, timeout: int, line: int)
    requires Legal(s, steps) && LineIs(s, timeout, line) && SweepStart !in steps
    ensures LineIs(Exec(s, steps), timeout, line)
    decreases |steps|
  {
    if steps != [] {
      assert LineIs(Apply(s, steps[0]), timeout, line);
      hide Apply, Enabled, LineIs;
      LineStays(Apply(s, steps[0]), steps[1..], timeout, line);
    }
  }

  lemma {:induction false} TimeoutStays(s: State, steps: seq<Step>)
    requires Legal(s, steps)
    ensures Exec(s, steps).timeout == s.timeout
    decreases |steps|
  {
    if steps != [] {
      assert Apply(s, steps[0]).timeout == s.timeout;
      hide Apply, Enabled;
      TimeoutStays(Apply(s, steps[0]), steps[1..]);
    }
  }

  /** A sweep is complete, whatever happens during it: every tunnel that it leaves in the map has been
      accessed since one timeout before the sweep started. */
  lemma SweepLeavesOnlyRecent(timeout: nat, now: int, before: seq<Step>, during: seq<Step>)
    requires Legal(Init(timeout, now), before)
    requires var s := Exec(Init(timeout, now), before);
             && Enabled(s, SweepStart) && Legal(Apply(s, SweepStart), during) && SweepStart !in during
             && Exec(Apply(s, SweepStart), during).sweep.Scanned?
    ensures var s := Exec(Init(timeout, now), before);
            var e := Exec(Apply(s, SweepStart), during);
            var left := Apply(e, SweepPurge);
            forall u :: u in left.table ==>
              left.table[u] in left.lastAccess && left.lastAccess[left.table[u]] >= s.now - timeout
  {
    InitInv(timeout, now);
    RunKeepsInv(Init(timeout, now), before);
    TimeoutStays(Init(timeout, now), before);
    var s := Exec(Init(timeout, now), before);
    StepKeepsInv(s, SweepStart);
    RunKeepsInv(Apply(s, SweepStart), during);
    LineStays(Apply(s, SweepStart), during, timeout, s.now - timeout);
    hide Legal, Exec, OpenWhileListed, NoneForgotten, GoodPicks, PicksRemember;
    var e := Exec(Apply(s, SweepStart), during);
    assert e.sweep.timeLine == s.now - timeout && e.timeout == timeout;
  }

  /** An access between the two phases does not rescue a tunnel: here one is closed at the very moment
      of its last access, although the timeout is positive. */
  lemma AccessInTheGapDoesNotRescue(timeout: nat)
    requires timeout > 0
    ensures exists steps :: Legal(Init(timeout, 0), steps) && ClosedOnAccess(Exec(Init(timeout, 0), steps), 0)
  {
    var s := Init(timeout, 0);
    var scanned := s.(now := timeout + 1, table := map[0 := 0], uuidOf := map[0 := 0], lastAccess := map[0 := 0],
                      sweep := Scanned(1, {Pick(0, 0, timeout + 1, 0)}));
    var front := ScanAlone(timeout, scanned);
    var back := TouchThenPurge(timeout, scanned);
    RunsCompose(s, front, back);
  }

  predicate ClosedOnAccess(s: State, t: Tunnel) {
    t in s.closed && t in s.lastAccess && s.lastAccess[t] == s.now
  }

  /** A tunnel is registered, left alone for longer than the timeout, and scanned. */
  lemma ScanAlone(timeout: nat, scanned: State) returns (steps: seq<Step>)
    requires scanned == State(timeout, timeout + 1, map[0 := 0], map[0 := 0], map[0 := 0], {}, map[],
                              Scanned(1, {Pick(0, 0, timeout + 1, 0)}))
    ensures Legal(Init(timeout, 0), steps) && Exec(Init(timeout, 0), steps) == scanned
  {
    var s1 := scanned.(now := 0, sweep := Resting);
    var s2 := scanned.(sweep := Resting);
    var s5 := scanned.(sweep := Scanning(1, {}, scanned.sweep.picked));
    steps := OneStep(s5, SweepUnlock, [], scanned);
    steps := OneStep(scanned.(sweep := Scanning(1, {0}, {})), SweepVisit(0), steps, s5);
    steps := OneStep(scanned.(sweep := Started(1)), SweepLock, steps, scanned.(sweep := Scanning(1, {0}, {})));
    steps := OneStep(s2, SweepStart, steps, scanned.(sweep := Started(1)));
    steps := OneStep(s1, Tick(timeout + 1), steps, s2);
    steps := OneStep(Init(timeout, 0), Connect(0, 0), steps, s1);
  }

  /** A request accesses the tunnel, then the sweep takes the write lock. */
  lemma TouchThenPurge(timeout: nat, scanned: State) returns (steps: seq<Step>)
    requires scanned == State(timeout, timeout + 1, map[0 := 0], map[0 := 0], map[0 := 0], {}, map[],
                              Scanned(1, {Pick(0, 0, timeout + 1, 0)}))
    ensures Legal(scanned, steps) && ClosedOnAccess(Exec(scanned, steps), 0)
  {
    var found := scanned.(request := map[0 := Found(0)]);
    var touched := scanned.(request := map[0 := Using(0)], lastAccess := map[0 := timeout + 1]);
    assert Pick(0, 0, timeout + 1, 0) in scanned.sweep.picked;
    assert 0 in Tunnels(scanned.sweep.picked);
    steps := OneStep(touched, SweepPurge, [], Apply(touched, SweepPurge));
    steps := OneStep(found, Touch(0), steps, touched);
    steps := OneStep(scanned, Lookup(0, 0), steps, found);
  }

  lemma OneStep(s: State, step: Step, rest: seq<Step>, s': State) returns (steps: seq<Step>)
    requires Enabled(s, step) && Apply(s, step) == s' && Legal(s', rest)
    ensures Legal(s, steps) && Exec(s, steps) == Exec(s', rest)
  {
    steps := [step] + rest;
    assert steps[1..] == rest;
  }

  lemma {:induction false} RunsCompose(s: State, front: seq<Step>, back: seq<Step>)
    requires Legal(s, front) && Legal(Exec(s, front), back)
    ensures Legal(s, front + back) && Exec(s, front + back) == Exec(Exec(s, front), back)
    decreases |front|
  {
    hide Enabled, Apply;
    if front == [] {
      assert front + back == back;
    } else {
      assert (front + back)[1..] == front[1..] + back;
      RunsCompose(Apply(s, front[0]), front[1..], back);
    }
  }
}
