/** The per-proxy session state machine (checker.go, and its copy in main.go):
    one check runs a bounded retry of the probe, then either records the
    result (first sighting, rotation or same IP) or marks the session DEAD. */
module Sessions {
  import opened Wrappers
  import opened Proxies
  import opened Seqs
  import opened Tracking

  /** The stored status; the "Stable (Dupe)" overlay is derived at display time. */
  datatype Status = Starting | Stable | Rotated | Dead

  /** `checkResult`: what one successful probe observed. Latency is in nanoseconds. */
  datatype CheckResult = CheckResult(ip: string, location: string, latency: int, bandwidth: int)

  /** The outcome of one call to `performCheck`; the TLS client, the request
      to ipinfo.io and the JSON decoding it performs are not modelled. */
  datatype Probe = Reached(result: CheckResult) | Failed

  /** The mutable fields of a `ProxySession`. `firstSeen` records only whether
      `FirstSeen` has been set, not the wall-clock time. */
  datatype Snapshot = Snapshot(
    currentIP: string,
    location: string,
    initialIP: string,
    checkCount: nat,
    rotationCount: nat,
    firstSeen: bool,
    totalLatency: int,
    totalBandwidth: int,
    status: Status)

  /** A session as `initializeTable` creates it. */
  const Initial: Snapshot := Snapshot("", "", "", 0, 0, false, 0, 0, Starting)

  /** `updateStatus(result)` on the session fields. */
  function Updated(s: Snapshot, r: CheckResult): Snapshot
  {
    var checks, latency, bandwidth := s.checkCount + 1, s.totalLatency + r.latency, s.totalBandwidth + r.bandwidth;
    if s.currentIP == "" then
      Snapshot(r.ip, r.location, r.ip, checks, s.rotationCount, true, latency, bandwidth, Stable)
    else if r.ip != s.currentIP then
      Snapshot(r.ip, r.location, s.initialIP, checks, s.rotationCount + 1, s.firstSeen, latency, bandwidth, Rotated)
    else
      Snapshot(s.currentIP, r.location, s.initialIP, checks, s.rotationCount, s.firstSeen, latency, bandwidth, Stable)
  }

  /** Whether `updateStatus(result)` calls `registerIP`: on the first
      sighting and on a rotation. */
  predicate Registers(s: Snapshot, r: CheckResult)
  {
    s.currentIP == "" || r.ip != s.currentIP
  }

  /** The tracker table after `updateStatus(result)` of session `id`. */
  function TrackerAfterUpdate(m: Table, s: Snapshot, r: CheckResult, id: string): Table
  {
    if Registers(s, r) then Registered(m, r.ip, id) else m
  }

  /** `check()`: the retry's result is recorded, or its absence marks the session DEAD. */
  function AfterCheck(s: Snapshot, outcome: Option<CheckResult>): Snapshot
  {
    match outcome
    case Some(r) => Updated(s, r)
    case None => s.(status := Dead)
  }

  function TrackerAfterCheck(m: Table, s: Snapshot, outcome: Option<CheckResult>, id: string): Table
  {
    match outcome
    case Some(r) => TrackerAfterUpdate(m, s, r, id)
    case None => m
  }

  /** The first successful outcome among the attempts `from`, ..., `n - 1`. */
  function FirstSuccess(probe: nat -> Probe, from: nat, n: int): Option<CheckResult>
    decreases n - from
  {
    if from >= n then None
    else if probe(from).Reached? then Some(probe(from).result)
    else FirstSuccess(probe, from + 1, n)
  }

  /** The number of attempts `check` allows (`tryCheckWithRetry(3)`). */
  const MaxRetries: int := 3

  class ProxySession {
    const proxy: Proxy
    /** `proxy.ShortID()`, which the code recomputes on each use from the
        constant proxy; here it is computed once, by the constructor. */
    const id: string
    const row: nat
    var currentIP: string
    var location: string
    var initialIP: string
    var checkCount: nat
    var rotationCount: nat
    var firstSeen: bool
    var totalLatency: int
    var totalBandwidth: int
    var status: Status

    function State(): Snapshot
      reads this
    {
      Snapshot(currentIP, location, initialIP, checkCount, rotationCount,
               firstSeen, totalLatency, totalBandwidth, status)
    }

    /** `&ProxySession{Proxy: proxy, row: row, Status: statusStarting}`. */
    constructor (proxy: Proxy, row: nat)
      ensures this.proxy == proxy && this.row == row && id == ShortID(proxy)
      ensures State() == Initial
    {
      this.proxy := proxy;
      this.id := ShortID(proxy);
      this.row := row;
      currentIP, location, initialIP := "", "", "";
      checkCount, rotationCount := 0, 0;
      firstSeen := false;
      totalLatency, totalBandwidth := 0, 0;
      status := Starting;
    }

    /** Attempts the probe up to `maxRetries` times, sleeping between attempts
        (not after the last), and returns the first success. `probe(i)` is the
        outcome the `i`-th attempt would have; `attempts` and `sleeps` count the
        probes made and the one-second sleeps taken. */
    method TryCheckWithRetry(maxRetries: int, probe: nat -> Probe)
      returns (result: Option<CheckResult>, attempts: nat, sleeps: nat)
      ensures result == FirstSuccess(probe, 0, maxRetries)
      ensures attempts <= if maxRetries > 0 then maxRetries else 0
      ensures forall j :: 0 <= j < attempts - 1 ==> probe(j).Failed?
      ensures result.Some? ==> attempts >= 1 && probe(attempts - 1) == Reached(result.value)
      ensures result.None? ==> attempts == (if maxRetries > 0 then maxRetries else 0)
                               && forall j :: 0 <= j < attempts ==> probe(j).Failed?
      ensures sleeps == if attempts == 0 then 0 else attempts - 1
    {
      attempts, sleeps := 0, 0;
      var i := 0;
      while i < maxRetries
        invariant 0 <= i && (maxRetries > 0 ==> i <= maxRetries) && (maxRetries <= 0 ==> i == 0)
        invariant attempts == i
        invariant sleeps == if i == 0 then 0 else if i < maxRetries then i else i - 1
        invariant forall j :: 0 <= j < i ==> probe(j).Failed?
        invariant FirstSuccess(probe, i, maxRetries) == FirstSuccess(probe, 0, maxRetries)
        decreases maxRetries - i
      {
        attempts := attempts + 1;
        var outcome := probe(i);
        if outcome.Reached? {
          return Some(outcome.result), attempts, sleeps;
        }
        if i < maxRetries - 1 {
          sleeps := sleeps + 1;
        }
        i := i + 1;
      }
      return None, attempts, sleeps;
    }

    /** Records one successful check, re-registering the session's IP on the
        first sighting and on a rotation. */
    method UpdateStatus(result: CheckResult, tracker: IPTracker)
      modifies this, tracker
      ensures State() == Updated(old(State()), result)
      ensures tracker.ipToIDs == TrackerAfterUpdate(old(tracker.ipToIDs), old(State()), result, id)
      ensures old(tracker.Valid()) ==> tracker.Valid()
    {
      ghost var s0, m0 := State(), tracker.ipToIDs;
      totalBandwidth := totalBandwidth + result.bandwidth;
      checkCount := checkCount + 1;
      totalLatency := totalLatency + result.latency;
      location := result.location;
      if currentIP == "" {
        currentIP, initialIP, firstSeen, status := result.ip, result.ip, true, Stable;
        assert State() == Updated(s0, result);
        tracker.RegisterIP(result.ip, id);
        assert tracker.ipToIDs == TrackerAfterUpdate(m0, s0, result, id);
      } else if result.ip != currentIP {
        rotationCount := rotationCount + 1;
        currentIP, status := result.ip, Rotated;
        assert State() == Updated(s0, result);
        tracker.RegisterIP(result.ip, id);
        assert tracker.ipToIDs == TrackerAfterUpdate(m0, s0, result, id);
      } else {
        status := Stable;
        assert tracker.ipToIDs == TrackerAfterUpdate(m0, s0, result, id);
      }
    }

    /** main.go's `markDead`: only the status changes. */
    method MarkDead()
      modifies this
      ensures State() == old(State()).(status := Dead)
    {
      status := Dead;
    }

    /** One check cycle. The display refresh that follows it is `Tui.Render`. */
    method Check(tracker: IPTracker, probe: nat -> Probe)
      modifies this, tracker
      ensures State() == AfterCheck(old(State()), FirstSuccess(probe, 0, MaxRetries))
      ensures tracker.ipToIDs ==
        TrackerAfterCheck(old(tracker.ipToIDs), old(State()), FirstSuccess(probe, 0, MaxRetries), id)
      ensures old(tracker.Valid()) ==> tracker.Valid()
    {
      var result, _, _ := TryCheckWithRetry(MaxRetries, probe);
      if result.Some? {
        UpdateStatus(result.value, tracker);
      } else {
        MarkDead();
      }
    }
  }

  // ---------------------------------------------------------------------------
  // One step

  /** The bounded retry gives nothing exactly when every attempt fails. */
  lemma {:induction false} FirstSuccessNone(probe: nat -> Probe, from: nat, n: int)
    ensures FirstSuccess(probe, from, n) == None <==> forall i :: from <= i < n ==> probe(i).Failed?
    decreases n - from
  {
    if from < n {
      FirstSuccessNone(probe, from + 1, n);
    }
  }

  /** Whatever the branch, a recorded check adds one check, the probe's
      latency and bandwidth, and takes its location. */
  lemma UpdateCounters(s: Snapshot, r: CheckResult)
    ensures var t := Updated(s, r);
      && t.checkCount == s.checkCount + 1
      && t.totalLatency == s.totalLatency + r.latency
      && t.totalBandwidth == s.totalBandwidth + r.bandwidth
      && t.location == r.location
  {
  }

  /** First sighting: both IPs are set to the observed one, the status is
      Stable, the rotation count is kept and the IP is registered. */
  lemma UpdateFirstSighting(s: Snapshot, r: CheckResult, m: Table, id: string)
    requires s.currentIP == ""
    ensures var t := Updated(s, r);
      && t.currentIP == r.ip && t.initialIP == r.ip && t.status == Stable
      && t.rotationCount == s.rotationCount && t.firstSeen
      && TrackerAfterUpdate(m, s, r, id) == Registered(m, r.ip, id)
  {
  }

  /** Rotation: one more rotation, status Rotated, the new current IP, the
      initial IP kept and the new IP registered. */
  lemma UpdateRotation(s: Snapshot, r: CheckResult, m: Table, id: string)
    requires s.currentIP != "" && r.ip != s.currentIP
    ensures var t := Updated(s, r);
      && t.rotationCount == s.rotationCount + 1 && t.status == Rotated
      && t.currentIP == r.ip && t.initialIP == s.initialIP && t.firstSeen == s.firstSeen
      && TrackerAfterUpdate(m, s, r, id) == Registered(m, r.ip, id)
  {
  }

  /** Same IP: status Stable; the IPs, the rotation count and the tracker are untouched. */
  lemma UpdateSameIP(s: Snapshot, r: CheckResult, m: Table, id: string)
    requires s.currentIP != "" && r.ip == s.currentIP
    ensures var t := Updated(s, r);
      && t.status == Stable && t.currentIP == s.currentIP && t.initialIP == s.initialIP
      && t.rotationCount == s.rotationCount && t.firstSeen == s.firstSeen
      && TrackerAfterUpdate(m, s, r, id) == m
  {
  }

  /** A failed check changes the status to DEAD and nothing else, in the
      session or in the tracker. */
  lemma FailedCheckOnlyMarksDead(s: Snapshot, m: Table, id: string)
    ensures AfterCheck(s, None) == s.(status := Dead)
    ensures TrackerAfterCheck(m, s, None, id) == m
  {
  }

  // ---------------------------------------------------------------------------
  // Any sequence of checks

  /** The session after a sequence of check outcomes. */
  function Run(s: Snapshot, outcomes: seq<Option<CheckResult>>): Snapshot
    decreases |outcomes|
  {
    if outcomes == [] then s else Run(AfterCheck(s, outcomes[0]), outcomes[1..])
  }

  /** The number of successful checks. */
  function Successes(outcomes: seq<Option<CheckResult>>): nat
  {
    if outcomes == [] then 0 else (if outcomes[0].Some? then 1 else 0) + Successes(outcomes[1..])
  }

  /** `checkCount` counts exactly the successful checks. */
  lemma {:induction false} RunCheckCount(s: Snapshot, outcomes: seq<Option<CheckResult>>)
    ensures Run(s, outcomes).checkCount == s.checkCount + Successes(outcomes)
    decreases |outcomes|
  {
    if outcomes != [] {
      RunCheckCount(AfterCheck(s, outcomes[0]), outcomes[1..]);
    }
  }

  /** No rotation before a first sighting, and fewer rotations than checks after. */
  predicate CountersInv(s: Snapshot)
  {
    && s.rotationCount <= (if s.checkCount == 0 then 0 else s.checkCount - 1)
    && (s.currentIP != "" ==> s.checkCount >= 1)
  }

  lemma {:induction false} RunKeepsCountersInv(s: Snapshot, outcomes: seq<Option<CheckResult>>)
    requires CountersInv(s)
    ensures CountersInv(Run(s, outcomes))
    decreases |outcomes|
  {
    if outcomes != [] {
      RunKeepsCountersInv(AfterCheck(s, outcomes[0]), outcomes[1..]);
    }
  }

  /** From a new session, after any sequence of checks: `checkCount` is the
      number of successes and `rotationCount <= max(0, checkCount - 1)`. */
  lemma RotationBound(outcomes: seq<Option<CheckResult>>)
    ensures var t := Run(Initial, outcomes);
      && t.checkCount == Successes(outcomes)
      && t.rotationCount <= if t.checkCount == 0 then 0 else t.checkCount - 1
  {
    RunCheckCount(Initial, outcomes);
    RunKeepsCountersInv(Initial, outcomes);
  }

  /** Every successful probe observed a non-empty IP. */
  predicate NonEmptyIPs(outcomes: seq<Option<CheckResult>>)
  {
    forall i :: 0 <= i < |outcomes| && outcomes[i].Some? ==> outcomes[i].value.ip != ""
  }

  /** The IP of the first successful check. */
  function FirstIP(outcomes: seq<Option<CheckResult>>): string
  {
    if outcomes == [] then ""
    else if outcomes[0].Some? then outcomes[0].value.ip
    else FirstIP(outcomes[1..])
  }

  /** Once an IP is current, and as long as probes report non-empty IPs,
      `initialIP` is never written again and some IP stays current. */
  lemma {:induction false} RunKeepsInitialIP(s: Snapshot, outcomes: seq<Option<CheckResult>>)
    requires s.currentIP != "" && NonEmptyIPs(outcomes)
    ensures Run(s, outcomes).initialIP == s.initialIP
    ensures Run(s, outcomes).currentIP != ""
    decreases |outcomes|
  {
    if outcomes != [] {
      assert NonEmptyIPs(outcomes[1..]) by {
        forall i | 0 <= i < |outcomes| - 1 && outcomes[1..][i].Some?
          ensures outcomes[1..][i].value.ip != ""
        {
          assert outcomes[1..][i] == outcomes[i + 1];
        }
      }
      assert outcomes[0].Some? ==> outcomes[0].value.ip != "";
      RunKeepsInitialIP(AfterCheck(s, outcomes[0]), outcomes[1..]);
    }
  }

  /** While probes report non-empty IPs, the initial IP of a session is the IP
      of its first successful check. */
  lemma {:induction false} InitialIPIsFirstIP(s: Snapshot, outcomes: seq<Option<CheckResult>>)
    requires s.currentIP == "" && s.initialIP == "" && NonEmptyIPs(outcomes)
    ensures Run(s, outcomes).initialIP == FirstIP(outcomes)
    decreases |outcomes|
  {
    if outcomes != [] {
      assert NonEmptyIPs(outcomes[1..]) by {
        forall i | 0 <= i < |outcomes| - 1 && outcomes[1..][i].Some?
          ensures outcomes[1..][i].value.ip != ""
        {
          assert outcomes[1..][i] == outcomes[i + 1];
        }
      }
      if outcomes[0].Some? {
        assert outcomes[0].value.ip != "";
        RunKeepsInitialIP(AfterCheck(s, outcomes[0]), outcomes[1..]);
      } else {
        InitialIPIsFirstIP(AfterCheck(s, outcomes[0]), outcomes[1..]);
      }
    }
  }

  /** The code does not validate the probed IP: a probe that reports an empty
      IP sends the next check down the first-sighting branch, which writes
      `initialIP` a second time. */
  lemma EmptyIPRewritesInitialIP()
    ensures var outcomes := [Some(CheckResult("9.9.9.9", "", 1, 0)),
                             Some(CheckResult("", "", 1, 0)),
                             Some(CheckResult("8.8.8.8", "", 1, 0))];
      Run(Initial, outcomes).initialIP == "8.8.8.8" && FirstIP(outcomes) == "9.9.9.9"
  {
    var outcomes := [Some(CheckResult("9.9.9.9", "", 1, 0)),
                     Some(CheckResult("", "", 1, 0)),
                     Some(CheckResult("8.8.8.8", "", 1, 0))];
    assert outcomes[1..][1..][1..] == [];
  }

  // ---------------------------------------------------------------------------
  // The session and the tracker agree

  /** The tracker lists session `id` under exactly one IP, its current one,
      once it has had a first sighting, and nowhere before. */
  ghost predicate Agrees(s: Snapshot, m: Table, id: string)
  {
    && TableInv(m)
    && (s.currentIP != "" ==> s.firstSeen)
    && forall k :: id in Lookup(m, k) <==> s.firstSeen && k == s.currentIP
  }

  lemma InitialAgrees(m: Table, id: string)
    requires TableInv(m) && forall k :: id !in Lookup(m, k)
    ensures Agrees(Initial, m, id)
  {
  }

  /** A check of the session itself keeps the agreement. */
  lemma CheckKeepsAgreement(s: Snapshot, m: Table, outcome: Option<CheckResult>, id: string)
    requires Agrees(s, m, id)
    ensures Agrees(AfterCheck(s, outcome), TrackerAfterCheck(m, s, outcome, id), id)
  {
    if outcome.Some? && Registers(s, outcome.value) {
      var r := outcome.value;
      var m' := Registered(m, r.ip, id);
      RegisterKeepsInvariant(m, r.ip, id);
      forall k
        ensures id in Lookup(m', k) <==> k == r.ip
      {
      }
    }
  }

  /** Another session registering any IP keeps this session's agreement:
      its identifier stays where it was. */
  lemma OtherRegistrationKeepsAgreement(s: Snapshot, m: Table, id: string, ip: string, other: string)
    requires other != id && Agrees(s, m, id)
    ensures Agrees(s, Registered(m, ip, other), id)
  {
    var m' := Registered(m, ip, other);
    RegisterKeepsInvariant(m, ip, other);
    RegisterKeepsOthers(m, ip, other);
    forall k
      ensures id in Lookup(m', k) <==> id in Lookup(m, k)
    {
      WithoutMember(Lookup(m', k), other, id);
      WithoutMember(Lookup(m, k), other, id);
    }
  }

  // ---------------------------------------------------------------------------
  // Scenarios

  /** A new session whose probe sees 9.9.9.9 and then 8.8.8.8: Stable with one
      check, then Rotated with one rotation and the initial IP kept; the
      tracker moves the identifier to 8.8.8.8 and drops the emptied entry. */
  lemma StableThenRotated(id: string)
    ensures var r1, r2 := CheckResult("9.9.9.9", "", 5, 10), CheckResult("8.8.8.8", "", 5, 10);
      var s1 := AfterCheck(Initial, Some(r1));
      var m1 := TrackerAfterCheck(map[], Initial, Some(r1), id);
      var s2 := AfterCheck(s1, Some(r2));
      var m2 := TrackerAfterCheck(m1, s1, Some(r2), id);
      && s1.status == Stable && s1.checkCount == 1 && s1.rotationCount == 0
      && m1 == map["9.9.9.9" := [id]]
      && s2.status == Rotated && s2.rotationCount == 1
      && s2.currentIP == "8.8.8.8" && s2.initialIP == "9.9.9.9"
      && m2 == map["8.8.8.8" := [id]]
  {
    var m1 := map["9.9.9.9" := [id]];
    assert Stripped(map[], id) == map[];
    assert Lookup(map[], "9.9.9.9") == [];
    assert [] + [id] == [id];
    assert Registered(map[], "9.9.9.9", id) == m1;
    assert Stripped(m1, id) == map[];
    assert Registered(m1, "8.8.8.8", id) == map["8.8.8.8" := [id]];
  }
}
