/** `TunnelMap`: tunnels by UUID with their last access times, and the timeout sweep, as one caller at
    a time sees them.  `TunnelLifecycle` has the interleavings. */
module TunnelRegistry {

  type Uuid = string
  type Tunnel = nat

  /** A registered tunnel; `closed` records that its `Close` has been called. */
  class LastAccessedTunnel {
    const tunnel: Tunnel
    var lastAccessedTime: int
    var closed: bool

    constructor (tunnel: Tunnel, now: int)
      ensures this.tunnel == tunnel && lastAccessedTime == now && !closed
    {
      this.tunnel := tunnel;
      lastAccessedTime := now;
      closed := false;
    }

    method Access(now: int)
      modifies this`lastAccessedTime
      ensures lastAccessedTime == now
    {
      lastAccessedTime := now;
    }

    method Close()
      modifies this`closed
      ensures closed
    {
      closed := true;
    }
  }

  /** Last access times by UUID. */
  type Times = map<Uuid, int>

  /** What a sweep at time `now` leaves. */
  function Swept(times: Times, now: int, timeout: int): (r: Times)
    ensures forall u :: u in r <==> u in times && now <= times[u] + timeout
    ensures forall u :: u in r ==> r[u] == times[u]
  {
    map u | u in times && !(times[u] < now - timeout) :: times[u]
  }

  class TunnelMap {
    var tunnelMap: map<Uuid, LastAccessedTunnel>
    const timeout: int

    /** Different UUIDs have different entries. */
    ghost predicate Valid()
      reads this
    {
      forall u, v :: u in tunnelMap && v in tunnelMap && u != v ==> tunnelMap[u] != tunnelMap[v]
    }

    ghost function View(): Times
      reads this, tunnelMap.Values
    {
      map u | u in tunnelMap :: tunnelMap[u].lastAccessedTime
    }

    constructor (timeout: int)
      ensures Valid() && View() == map[] && this.timeout == timeout
    {
      tunnelMap := map[];
      this.timeout := timeout;
    }

    method Put(uuid: Uuid, tunnel: Tunnel, now: int)
      requires Valid()
      modifies this`tunnelMap
      ensures Valid() && View() == old(View())[uuid := now]
      ensures uuid in tunnelMap && fresh(tunnelMap[uuid]) && tunnelMap[uuid].tunnel == tunnel && !tunnelMap[uuid].closed
      ensures forall u :: u in old(tunnelMap) && u != uuid ==> u in tunnelMap && tunnelMap[u] == old(tunnelMap)[u]
    {
      var one := new LastAccessedTunnel(tunnel, now);
      tunnelMap := tunnelMap[uuid := one];
    }

    /** Look a tunnel up and, if it is there, count this as an access. */
    method Get(uuid: Uuid, now: int) returns (tunnel: LastAccessedTunnel?, ok: bool)
      requires Valid()
      modifies tunnelMap.Values`lastAccessedTime
      ensures Valid() && ok == (uuid in tunnelMap) && (ok ==> tunnel == tunnelMap[uuid])
      ensures View() == if ok then old(View())[uuid := now] else old(View())
    {
      ok := uuid in tunnelMap;
      tunnel := null;
      if ok {
        tunnel := tunnelMap[uuid];
        tunnel.Access(now);
      }
    }

    method Remove(uuid: Uuid) returns (tunnel: LastAccessedTunnel?, ok: bool)
      requires Valid()
      modifies this`tunnelMap
      ensures Valid() && tunnelMap == old(tunnelMap) - {uuid}
      ensures ok == (uuid in old(tunnelMap)) && (ok ==> tunnel == old(tunnelMap)[uuid])
    {
      ok := uuid in tunnelMap;
      tunnel := null;
      if ok {
        tunnel := tunnelMap[uuid];
        tunnelMap := tunnelMap - {uuid};
      }
    }

    /** The first loop of a sweep: the entries not accessed since `timeLine`. */
    method Expired(timeLine: int) returns (removeIDs: seq<Uuid>)
      ensures forall u :: u in removeIDs <==> u in tunnelMap && tunnelMap[u].lastAccessedTime < timeLine
    {
      removeIDs := [];
      var todo := tunnelMap.Keys;
      while todo != {}
        invariant todo <= tunnelMap.Keys
        invariant forall u :: u in removeIDs <==>
                                u in tunnelMap && u !in todo && tunnelMap[u].lastAccessedTime < timeLine
        decreases todo
      {
        var uuid :| uuid in todo;
        if tunnelMap[uuid].lastAccessedTime < timeLine {
          removeIDs := removeIDs + [uuid];
        }
        todo := todo - {uuid};
      }
    }

    /** A whole sweep with nobody interfering: removes exactly the entries idle for more than the
        timeout, closes exactly those tunnels, and touches no other. */
    method TunnelTimeoutTaskRun(now: int)
      requires Valid()
      modifies this`tunnelMap, tunnelMap.Values`closed
      ensures Valid() && View() == Swept(old(View()), now, timeout)
      ensures forall u :: u in tunnelMap ==> u in old(tunnelMap) && tunnelMap[u] == old(tunnelMap)[u]
      ensures forall u :: u in old(tunnelMap) ==>
                old(tunnelMap)[u].closed == (u !in tunnelMap || old(tunnelMap[u].closed))
    {
      var timeLine := now - timeout;
      var before := tunnelMap;
      var removeIDs := Expired(timeLine);
      for k := 0 to |removeIDs|
        invariant forall u :: u in tunnelMap <==> u in before && u !in removeIDs[..k]
        invariant forall u :: u in tunnelMap ==> tunnelMap[u] == before[u]
        invariant forall u :: u in before ==> before[u].closed == (u in removeIDs[..k] || old(before[u].closed))
      {
        var uuid := removeIDs[k];
        tunnelMap := tunnelMap - {uuid};
        before[uuid].Close();
        assert removeIDs[..k + 1] == removeIDs[..k] + [uuid];
      }
      assert removeIDs[..|removeIDs|] == removeIDs;
    }
  }

  // ---------- The timeout window ----------

  /** The times of sweeps that run every `timeout`, the first at `first`. */
  function SweepTime(first: int, timeout: nat, k: nat): int {
    if k == 0 then first else SweepTime(first, timeout, k - 1) + timeout
  }

  /** What is left after the first k sweeps when nobody accesses anything. */
  function AfterSweeps(times: Times, first: int, timeout: nat, k: nat): Times {
    if k == 0 then times
    else Swept(AfterSweeps(times, first, timeout, k - 1), SweepTime(first, timeout, k - 1), timeout)
  }

  lemma {:induction false} SweepsInOrder(first: int, timeout: nat, j: nat, k: nat)
    requires j <= k
    ensures SweepTime(first, timeout, j) <= SweepTime(first, timeout, k)
  {
    if j < k {
      SweepsInOrder(first, timeout, j, k - 1);
    }
  }

  lemma {:induction false} SurvivesUntil(times: Times, first: int, timeout: nat, k: nat, u: Uuid)
    requires u in times
    ensures u in AfterSweeps(times, first, timeout, k) <==>
              k == 0 || SweepTime(first, timeout, k - 1) <= times[u] + timeout
    ensures u in AfterSweeps(times, first, timeout, k) ==> AfterSweeps(times, first, timeout, k)[u] == times[u]
  {
    if k > 0 {
      SurvivesUntil(times, first, timeout, k - 1, u);
      if k > 1 {
        SweepsInOrder(first, timeout, k - 2, k - 1);
      }
    }
  }

  /** The first sweep that finds the tunnel expired. */
  function RemovingSweep(first: int, timeout: nat, last: int, k: nat): (r: nat)
    requires timeout > 0 && (k == 0 || SweepTime(first, timeout, k - 1) <= last + timeout)
    ensures r >= k && SweepTime(first, timeout, r) > last + timeout
    ensures r == 0 || SweepTime(first, timeout, r - 1) <= last + timeout
    decreases if SweepTime(first, timeout, k) > last + timeout then 0
              else last + timeout - SweepTime(first, timeout, k) + 1
  {
    if SweepTime(first, timeout, k) > last + timeout then k else RemovingSweep(first, timeout, last, k + 1)
  }

  /** With sweeps exactly one timeout apart and no further access, a tunnel last accessed at a is
      removed by one particular sweep, at a time t with a + timeout < t <= a + 2 * timeout: it survives
      every earlier sweep and is gone after that one and for ever.  `first` is the first sweep after
      the tunnel map was created, at most one timeout after the tunnel was registered. */
  lemma TimeoutWindow(times: Times, first: int, timeout: nat, u: Uuid)
    requires timeout > 0 && u in times && first <= times[u] + timeout
    ensures var r := RemovingSweep(first, timeout, times[u], 0);
            && times[u] + timeout < SweepTime(first, timeout, r) <= times[u] + 2 * timeout
            && forall k: nat :: u in AfterSweeps(times, first, timeout, k) <==> k <= r
  {
    var r := RemovingSweep(first, timeout, times[u], 0);
    forall k: nat ensures u in AfterSweeps(times, first, timeout, k) <==> k <= r {
      SurvivesUntil(times, first, timeout, k, u);
      if 0 < k <= r {
        SweepsInOrder(first, timeout, k - 1, r - 1);
      } else if k > r {
        SweepsInOrder(first, timeout, r, k - 1);
      }
    }
  }
}
