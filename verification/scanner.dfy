/** The two periodic tasks of daemon/src/daemon.rs: the timeout sweep, which
    disconnects every Online device not seen for longer than the configured
    timeout, and the daily audit-log cleanup. */
module Scanner {
  import opened Wrappers
  import opened Models
  import opened Errors
  import Seqs
  import Store
  import Presence

  const U64: int := 0x1_0000_0000_0000_0000
  const I64Limit: int := 0x8000_0000_0000_0000

  /** `x as u64` on an `i64`: the same 64 bits read as unsigned. */
  function AsU64(x: int): (r: nat)
    ensures r < U64
    ensures 0 <= x < U64 ==> r == x
    ensures -I64Limit <= x < 0 ==> r == x + U64
  {
    x % U64
  }

  /** The sweep's test: the whole seconds since the device was last seen,
      cast to unsigned, exceed the timeout. */
  predicate TimedOut(lastSeen: int, now: int, timeout: nat) {
    AsU64(now - lastSeen) > timeout
  }

  /** For an elapsed time the cast leaves alone, the test is the plain
      comparison; a device whose last sighting lies in the future (the
      clock stepped back) counts as timed out, because the negative
      difference becomes a huge unsigned number. */
  lemma TimedOutMeaning(lastSeen: int, now: int, timeout: nat)
    requires timeout < I64Limit
    ensures 0 <= now - lastSeen < U64 ==> (TimedOut(lastSeen, now, timeout) <==> now - lastSeen > timeout)
    ensures -I64Limit <= now - lastSeen < 0 ==> TimedOut(lastSeen, now, timeout)
  {
  }

  /** `check_timeouts` after its query: each listed device in order; a
      timed-out one is disconnected, and the first disconnection that
      fails ends the sweep with its error. */
  function ScanTimeouts(st: Presence.State, devices: seq<Device>, timeout: nat, env: Presence.Env): (r: Presence.Step)
    ensures r.state.store.devices.Keys == st.store.devices.Keys
    ensures r.state.store.rules == st.store.rules
    ensures r.state.notifier.channels == st.notifier.channels
    decreases |devices|
  {
    if |devices| == 0 then Presence.Step(st, [], Ok(()))
    else
      var d := devices[0];
      if !TimedOut(d.lastSeen, env.now, timeout) then ScanTimeouts(st, devices[1..], timeout, env)
      else
        var step := Presence.HandleDeviceDisconnection(st, d.macAddress, env);
        if step.result.Err? then step
        else
          var rest := ScanTimeouts(step.state, devices[1..], timeout, env);
          Presence.Step(rest.state, step.notifications + rest.notifications, rest.result)
  }

  /** When disconnecting a timed-out device fails, the sweep ends there
      with that error: the devices after it are not looked at. */
  lemma ScanStopsAtError(st: Presence.State, d: Device, rest: seq<Device>, timeout: nat, env: Presence.Env)
    requires TimedOut(d.lastSeen, env.now, timeout)
    ensures Presence.HandleDeviceDisconnection(st, d.macAddress, env).result.Err? ==>
              ScanTimeouts(st, [d] + rest, timeout, env) == Presence.HandleDeviceDisconnection(st, d.macAddress, env)
  {
    assert ([d] + rest)[0] == d;
  }

  /** Some timed-out entry of `devices` carries `mac`. */
  ghost predicate Doomed(devices: seq<Device>, mac: string, now: int, timeout: nat) {
    exists i :: 0 <= i < |devices| && devices[i].macAddress == mac && TimedOut(devices[i].lastSeen, now, timeout)
  }

  lemma DoomedCons(devices: seq<Device>, mac: string, now: int, timeout: nat)
    requires |devices| > 0
    ensures Doomed(devices, mac, now, timeout) <==>
              (devices[0].macAddress == mac && TimedOut(devices[0].lastSeen, now, timeout))
              || Doomed(devices[1..], mac, now, timeout)
  {
    if Doomed(devices[1..], mac, now, timeout) {
      var i :| 0 <= i < |devices[1..]| && devices[1..][i].macAddress == mac
               && TimedOut(devices[1..][i].lastSeen, now, timeout);
      assert devices[i + 1] == devices[1..][i];
    }
    if Doomed(devices, mac, now, timeout) && !(devices[0].macAddress == mac && TimedOut(devices[0].lastSeen, now, timeout)) {
      var i :| 0 <= i < |devices| && devices[i].macAddress == mac && TimedOut(devices[i].lastSeen, now, timeout);
      assert devices[1..][i - 1] == devices[i];
    }
  }

  /** What a sweep does to the device table: a device with no timed-out
      entry in the list is untouched, and when the sweep succeeds every
      known device with one is Offline. */
  lemma {:induction false} ScanEffects(st: Presence.State, devices: seq<Device>, timeout: nat, env: Presence.Env)
    ensures var r := ScanTimeouts(st, devices, timeout, env);
            && (forall m :: m in st.store.devices && !Doomed(devices, m, env.now, timeout) ==>
                  r.state.store.devices[m] == st.store.devices[m])
            && (r.result.Ok? ==>
                  forall m :: m in st.store.devices && Doomed(devices, m, env.now, timeout) ==>
                    Store.DecodeStatus(r.state.store.devices[m].status) == Offline)
    decreases |devices|
  {
    if |devices| > 0 {
      var d := devices[0];
      forall m {
        DoomedCons(devices, m, env.now, timeout);
      }
      if !TimedOut(d.lastSeen, env.now, timeout) {
        ScanEffects(st, devices[1..], timeout, env);
      } else {
        var step := Presence.HandleDeviceDisconnection(st, d.macAddress, env);
        Presence.DisconnectionLeavesOffline(st, d.macAddress, env);
        if step.result.Ok? {
          ScanEffects(step.state, devices[1..], timeout, env);
        }
      }
    }
  }

  /** A sweep over a list with nothing timed out does nothing. */
  lemma {:induction false} ScanNothingDue(st: Presence.State, devices: seq<Device>, timeout: nat, env: Presence.Env)
    requires forall i :: 0 <= i < |devices| ==> !TimedOut(devices[i].lastSeen, env.now, timeout)
    ensures ScanTimeouts(st, devices, timeout, env) == Presence.Step(st, [], Ok(()))
    decreases |devices|
  {
    if |devices| > 0 {
      ScanNothingDue(st, devices[1..], timeout, env);
    }
  }

  /** A stored device the sweep must disconnect: its status text is
      "online" and its last sighting is older than the timeout. */
  ghost predicate Expired(st: Store.Store, mac: string, now: int, timeout: nat) {
    && mac in st.devices
    && st.devices[mac].status == StatusText(Online)
    && TimedOut(st.devices[mac].lastSeen, now, timeout)
  }

  /** Over the rows the status query lists, the devices with a timed-out
      entry are exactly the expired ones. */
  lemma DoomedAreExpired(st: Store.Store, scanned: seq<Device>, mac: string, now: int, timeout: nat)
    requires Store.IsStatusQueryResult(st, Online, scanned)
    requires mac in st.devices
    ensures Doomed(scanned, mac, now, timeout) <==> Expired(st, mac, now, timeout)
  {
    if Expired(st, mac, now, timeout) {
      var i :| 0 <= i < |scanned| && scanned[i].macAddress == mac;
      assert scanned[i].lastSeen == st.devices[mac].lastSeen;
    }
  }

  /** `check_timeouts`: the Online devices newest first, then the sweep.
      Devices that are not expired are untouched; when the sweep succeeds
      every expired device is Offline. */
  method CheckTimeouts(st: Presence.State, timeout: nat, env: Presence.Env) returns (r: Presence.Step, scanned: seq<Device>)
    ensures Store.IsStatusQueryResult(st.store, Online, scanned)
    ensures r == ScanTimeouts(st, scanned, timeout, env)
    ensures r.state.store.devices.Keys == st.store.devices.Keys
    ensures forall m :: m in st.store.devices && !Expired(st.store, m, env.now, timeout) ==>
              r.state.store.devices[m] == st.store.devices[m]
    ensures r.result.Ok? ==>
              forall m :: Expired(st.store, m, env.now, timeout) ==>
                Store.DecodeStatus(r.state.store.devices[m].status) == Offline
  {
    scanned := Store.GetDevicesByStatus(st.store, Online);
    r := ScanTimeouts(st, scanned, timeout, env);
    ScanEffects(st, scanned, timeout, env);
    forall m | m in st.store.devices {
      DoomedAreExpired(st.store, scanned, m, env.now, timeout);
    }
  }

  /** Sweeping again at the same moment, with no event in between, finds
      nothing to do once a sweep has succeeded. */
  lemma SecondScanQuiet(st: Presence.State, scanned: seq<Device>, rescanned: seq<Device>, timeout: nat,
                        env: Presence.Env)
    requires Store.IsStatusQueryResult(st.store, Online, scanned)
    requires ScanTimeouts(st, scanned, timeout, env).result.Ok?
    requires Store.IsStatusQueryResult(ScanTimeouts(st, scanned, timeout, env).state.store, Online, rescanned)
    ensures var s1 := ScanTimeouts(st, scanned, timeout, env).state;
            ScanTimeouts(s1, rescanned, timeout, env) == Presence.Step(s1, [], Ok(()))
  {
    var s1 := ScanTimeouts(st, scanned, timeout, env).state;
    ScanEffects(st, scanned, timeout, env);
    Store.StatusRoundTrip(Online);
    forall i | 0 <= i < |rescanned| ensures !TimedOut(rescanned[i].lastSeen, env.now, timeout) {
      var m := rescanned[i].macAddress;
      DoomedAreExpired(st.store, scanned, m, env.now, timeout);
      assert s1.store.devices[m] == st.store.devices[m];
    }
    ScanNothingDue(s1, rescanned, timeout, env);
  }

  /** After a successful sweep, and until the next event, no device the
      sweep found expired is listed by an Online query, whenever that
      query runs: the sweep left each of them Offline. */
  lemma SweptDevicesNotListed(st: Presence.State, scanned: seq<Device>, rescanned: seq<Device>, timeout: nat,
                              env: Presence.Env)
    requires Store.IsStatusQueryResult(st.store, Online, scanned)
    requires ScanTimeouts(st, scanned, timeout, env).result.Ok?
    requires Store.IsStatusQueryResult(ScanTimeouts(st, scanned, timeout, env).state.store, Online, rescanned)
    ensures forall i :: 0 <= i < |rescanned| ==> !Expired(st.store, rescanned[i].macAddress, env.now, timeout)
  {
    var s1 := ScanTimeouts(st, scanned, timeout, env).state;
    ScanEffects(st, scanned, timeout, env);
    Store.StatusRoundTrip(Online);
    forall i | 0 <= i < |rescanned| ensures !Expired(st.store, rescanned[i].macAddress, env.now, timeout) {
      var m := rescanned[i].macAddress;
      if m in st.store.devices {
        DoomedAreExpired(st.store, scanned, m, env.now, timeout);
      }
    }
  }

  // ---------------------------------------------------------------------
  // Log retention

  /** The configured retention (`u64`) as the `i64` the daemon keeps: the
      same 64 bits, so values of 2^63 and above turn negative. */
  function RetentionDays(configured: nat): (days: int)
    requires configured < U64
    ensures -I64Limit <= days < I64Limit
    ensures (days - configured) % U64 == 0
    ensures configured < I64Limit ==> days == configured
  {
    if configured < I64Limit then configured else configured - U64
  }

  /** One tick of `cleanup_old_logs`: nothing when cleanup is disabled,
      otherwise the rows older than the retention period go. */
  function CleanupTick(st: Store.Store, enabled: bool, days: int, now: int): (r: Store.Store)
    ensures !enabled ==> r == st
    ensures enabled ==> forall i :: 0 <= i < |r.logs| ==> r.logs[i].timestamp >= now - days * 86400
    ensures enabled ==> forall i :: 0 <= i < |st.logs| && st.logs[i].timestamp >= now - days * 86400 ==>
                          st.logs[i] in r.logs
    ensures enabled ==> forall i :: 0 <= i < |r.logs| ==> r.logs[i] in st.logs
    ensures enabled ==> |r.logs| == |st.logs| - Seqs.Count(Store.Stale(now - days * 86400), st.logs)
    ensures r.devices == st.devices && r.rules == st.rules
  {
    if !enabled then st else Store.ClearOldLogs(st, days, now).0
  }

  /** The last instant whose RFC 3339 text has a four-digit year:
      9999-12-31T23:59:59Z. Up to it the stored texts compare as the
      instants do. */
  const LastFourDigitSecond: int := 253402300799

  /** A retention configured at 2^63 days or more wraps to a negative
      period, moving the cutoff into the future. When that cutoff still
      has a four-digit year, the cleanup deletes every row stamped up to
      now. */
  lemma WrappedRetentionPurges(st: Store.Store, configured: nat, now: int)
    requires I64Limit <= configured < U64
    requires 0 <= now && now - RetentionDays(configured) * 86400 <= LastFourDigitSecond
    ensures var r := CleanupTick(st, true, RetentionDays(configured), now);
            forall i :: 0 <= i < |r.logs| ==> r.logs[i].timestamp > now
  {
    var days := RetentionDays(configured);
    assert days <= -1;
    assert now - days * 86400 >= now + 86400;
  }
}
