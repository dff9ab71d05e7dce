/** The presence tracker of daemon/src/daemon.rs: what one network event does
    to the device table, the audit log and the notifier. Activity marks a
    device Online (inserting it when new), a removal marks it Offline, each
    transition writes one audit row, and every enabled rule whose MAC filter
    admits the device and whose trigger matches the transition raises one
    notification. */
module Presence {
  import opened Wrappers
  import opened Models
  import opened Errors
  import Text
  import Seqs
  import Store
  import Dispatch

  /** What the daemon holds between events. */
  datatype State = State(store: Store.Store, notifier: Dispatch.Notifier)

  /** What the outside world contributes to one call: the clock reading,
      whether audit writes reach the database, and which deliveries
      succeed. */
  datatype Env = Env(now: int, logWritesSucceed: bool, deliver: Dispatch.Deliver)

  /** One `send_notification`: the event, the channel names it went to and
      what happened on each channel the table knows. */
  datatype Notification = Raised(event: NotificationEvent, channels: seq<string>, attempts: seq<Dispatch.Attempt>)

  /** The outcome of handling one event. */
  datatype Step = Step(state: State, notifications: seq<Notification>, result: Result<(), DaemonError>)

  /** The transition a rule is matched against: activity of a device (new or
      not, and its status before), or its disconnection. */
  datatype Transition = Activity(isNew: bool, oldStatus: DeviceStatus) | Disconnection

  // ---------------------------------------------------------------------
  // Rule matching

  /** A rule without a MAC filter admits every device; with one, the MAC
      must equal it up to ASCII case. */
  predicate MacFilterAdmits(rule: Rule, mac: string) {
    rule.macFilter.None? || Text.EqIgnoreAsciiCase(mac, rule.macFilter.value)
  }

  /** Whether a trigger type matches a transition. On activity the device's
      new status is always Online. */
  predicate Triggered(t: TriggerType, tr: Transition) {
    match tr
    case Activity(isNew, was) =>
      (match t
       case NewDevice => isNew
       case DeviceConnected => was != Online
       case DeviceStatusChange => was != Online
       case DeviceDisconnected => false)
    case Disconnection => t == DeviceDisconnected || t == DeviceStatusChange
  }

  /** The filter cannot tell apart MACs that differ only in ASCII case, and
      a rule without one admits every MAC. */
  lemma FilterIgnoresCase(rule: Rule, m1: string, m2: string)
    ensures Text.EqIgnoreAsciiCase(m1, m2) ==> (MacFilterAdmits(rule, m1) <==> MacFilterAdmits(rule, m2))
    ensures rule.macFilter.None? ==> MacFilterAdmits(rule, m1)
    ensures rule.macFilter.Some? ==> MacFilterAdmits(rule, rule.macFilter.value)
  {
    if rule.macFilter.Some? {
      var f := rule.macFilter.value;
      Text.EqIgnoreAsciiCaseIsEquivalence(m1, m2, f);
      Text.EqIgnoreAsciiCaseIsEquivalence(m2, m1, f);
      Text.EqIgnoreAsciiCaseIsEquivalence(f, f, f);
    }
  }

  predicate Fires(rule: Rule, mac: string, tr: Transition) {
    MacFilterAdmits(rule, mac) && Triggered(rule.triggerType, tr)
  }

  function FiresFor(mac: string, tr: Transition): Rule -> bool {
    rule => Fires(rule, mac, tr)
  }

  /** Which rule types answer which transition, as the two handlers decide. */
  lemma TriggerTable(t: TriggerType, isNew: bool, was: DeviceStatus)
    ensures Triggered(t, Activity(isNew, was)) ==> t != DeviceDisconnected
    ensures t == NewDevice ==> (Triggered(t, Activity(isNew, was)) <==> isNew)
    ensures isNew && was == Unknown && t != DeviceDisconnected ==> Triggered(t, Activity(isNew, was))
    ensures t == DeviceConnected || t == DeviceStatusChange ==> (Triggered(t, Activity(isNew, was)) <==> was != Online)
    ensures Triggered(t, Disconnection) <==> t == DeviceDisconnected || t == DeviceStatusChange
  {
  }

  /** The event `send_notification` builds for a rule and a device. */
  function RuleEvent(rule: Rule, device: Device, now: int): (e: NotificationEvent)
    ensures e.eventType == rule.triggerType && e.device == device && e.timestamp == now
    ensures |e.message| == 29 + |rule.name| + |device.macAddress|
    ensures e.message[..6] == "Rule '" && e.message[6..6 + |rule.name|] == rule.name
    ensures e.message[|e.message| - |device.macAddress|..] == device.macAddress
  {
    NotificationEvent(now, rule.triggerType, device,
                      "Rule '" + rule.name + "' triggered for device " + device.macAddress)
  }

  /** The number of deliveries that succeeded across `ns`. */
  function DeliveredCount(ns: seq<Notification>): nat {
    if |ns| == 0 then 0 else Seqs.Count(Dispatch.Delivered, ns[0].attempts) + DeliveredCount(ns[1..])
  }

  /** The rule loop of both handlers: every rule that fires, in order, is
      sent through the notifier. `send` never fails, so the `?` after it
      never stops the loop. */
  function NotifyRules(n: Dispatch.Notifier, rules: seq<Rule>, mac: string, tr: Transition,
                       device: Device, env: Env): (r: (Dispatch.Notifier, seq<Notification>))
    ensures r.0.channels == n.channels
    ensures r.0.sent == n.sent + DeliveredCount(r.1)
    decreases |rules|
  {
    if |rules| == 0 then (n, [])
    else
      var rule := rules[0];
      if !Fires(rule, mac, tr) then NotifyRules(n, rules[1..], mac, tr, device, env)
      else
        var e := RuleEvent(rule, device, env.now);
        var out := Dispatch.Send(n, e, rule.notificationChannels, env.deliver);
        Dispatch.SentCountsDeliveredAttempts(n.channels, e, rule.notificationChannels, env.deliver);
        var rest := NotifyRules(out.notifier, rules[1..], mac, tr, device, env);
        (rest.0, [Raised(e, rule.notificationChannels, out.attempts)] + rest.1)
  }

  /** The notification a firing rule produces. */
  function NotificationFor(t: map<string, NotificationChannel>, rule: Rule, device: Device, env: Env): Notification {
    var e := RuleEvent(rule, device, env.now);
    Raised(e, rule.notificationChannels, Dispatch.Sweep(t, e, rule.notificationChannels, env.deliver).1)
  }

  /** Exactly the rules that fire are notified, one notification each, in
      rule order, every one sent over the same channel table. */
  lemma {:induction false} NotifiedRulesAreTheFiringOnes(n: Dispatch.Notifier, rules: seq<Rule>, mac: string,
                                                         tr: Transition, device: Device, env: Env)
    ensures var ns := NotifyRules(n, rules, mac, tr, device, env).1;
            var firing := Seqs.Filter(FiresFor(mac, tr), rules);
            && |ns| == |firing|
            && forall k :: 0 <= k < |firing| ==> ns[k] == NotificationFor(n.channels, firing[k], device, env)
    decreases |rules|
  {
    if |rules| > 0 {
      Seqs.FilterCons(FiresFor(mac, tr), rules);
      if Fires(rules[0], mac, tr) {
        var e := RuleEvent(rules[0], device, env.now);
        var out := Dispatch.Send(n, e, rules[0].notificationChannels, env.deliver);
        NotifiedRulesAreTheFiringOnes(out.notifier, rules[1..], mac, tr, device, env);
      } else {
        NotifiedRulesAreTheFiringOnes(n, rules[1..], mac, tr, device, env);
      }
    }
  }

  /** Fetching the enabled rules and running the loop. A rule table that
      cannot be read ends the call with its error and nothing sent. */
  function RunRules(s: State, mac: string, tr: Transition, device: Device, env: Env): (r: Step)
    ensures r.state.store == s.store && r.state.notifier.channels == s.notifier.channels
    ensures r.result.Ok? <==> Store.GetEnabledRules(s.store).Ok?
    ensures r.result.Err? ==> r.state == s && r.notifications == []
    ensures r.result.Ok? ==> |r.notifications| == Seqs.Count(FiresFor(mac, tr), Store.GetEnabledRules(s.store).value)
  {
    match Store.GetEnabledRules(s.store)
    case Err(e) => Step(s, [], Err(e))
    case Ok(rules) =>
      NotifiedRulesAreTheFiringOnes(s.notifier, rules, mac, tr, device, env);
      var (n, ns) := NotifyRules(s.notifier, rules, mac, tr, device, env);
      Step(State(s.store, n), ns, Ok(()))
  }

  /** Fetching the rules depends on the rule table alone. */
  lemma EnabledRulesDependOnRulesOnly(a: Store.Store, b: Store.Store)
    requires a.rules == b.rules
    ensures Store.GetEnabledRules(a) == Store.GetEnabledRules(b)
  {
  }

  // ---------------------------------------------------------------------
  // The audit log

  /** `let _ = create_log(..)`: the row is written when the database takes
      it; a failure is ignored. */
  function WriteLog(st: Store.Store, e: LogEntry, env: Env): (r: Store.Store)
    ensures r.devices == st.devices && r.rules == st.rules
    ensures env.logWritesSucceed ==> |r.logs| == |st.logs| + 1 && r.logs[..|st.logs|] == st.logs
                                     && Store.RowToLog(r.logs[|st.logs|]) == e.(id := Some(st.nextLogId))
    ensures !env.logWritesSucceed ==> r == st
    ensures Store.Valid(st) ==> Store.Valid(r)
    ensures Store.Valid(st) && env.logWritesSucceed ==>
              forall i :: 0 <= i < |st.logs| ==> st.logs[i].id != r.logs[|st.logs|].id
  {
    if env.logWritesSucceed then Store.CreateLog(st, e).0 else st
  }

  // ---------------------------------------------------------------------
  // Activity

  /** The record `handle_device_activity` upserts: the MAC and IP just seen,
      no hostname or vendor, Online, seen now; id, nickname and first-seen
      time come from the stored device when there is one. */
  function ActivityDevice(existing: Option<Device>, mac: string, ip: Option<IpAddr>, now: int): Device {
    Device(if existing.Some? then existing.value.id else None,
           mac,
           OptionalIpText(ip),
           None,
           if existing.Some? then existing.value.nickname else None,
           None,
           if existing.Some? then existing.value.firstSeen else now,
           now,
           Online)
  }

  function ActivityTransition(existing: Option<Device>): Transition {
    Activity(existing.None?, if existing.Some? then existing.value.status else Unknown)
  }

  /** The audit message for activity, when it is worth one: discovery of a
      new device, or a known device that was not Online coming back. */
  function ActivityMessage(existing: Option<Device>, mac: string): Option<string> {
    if existing.None? then Some("New device discovered: " + mac)
    else if existing.value.status != Online then Some("Device connected: " + mac)
    else None
  }

  /** `handle_device_activity(mac, ip)`. */
  function HandleDeviceActivity(st: State, mac: string, ip: Option<IpAddr>, env: Env): (r: Step)
    ensures r.state.store.devices.Keys == st.store.devices.Keys + {mac}
    ensures forall m :: m in st.store.devices && m != mac ==> r.state.store.devices[m] == st.store.devices[m]
    ensures r.state.store.rules == st.store.rules
    ensures r.state.notifier.channels == st.notifier.channels
    ensures r.result.Ok? <==> Store.GetEnabledRules(st.store).Ok?
  {
    var existing := Store.GetDeviceByMac(st.store, mac);
    var device := ActivityDevice(existing, mac, ip, env.now);
    var store1 := Store.UpsertDevice(st.store, device).0;
    var msg := ActivityMessage(existing, mac);
    var store2 :=
      if msg.Some? then WriteLog(store1, LogEntry(None, env.now, Info, "device", msg.value, OptionalIpText(ip)), env)
      else store1;
    EnabledRulesDependOnRulesOnly(store2, st.store);
    RunRules(State(store2, st.notifier), mac, ActivityTransition(existing), device, env)
  }

  /** After activity the device is stored Online, seen now, with the IP of
      the event and no hostname or vendor; a known device keeps its id,
      nickname and first-seen time, a new one is first seen now. */
  lemma ActivityRecordsDevice(st: State, mac: string, ip: Option<IpAddr>, env: Env)
    ensures var r := HandleDeviceActivity(st, mac, ip, env);
            var d := Store.GetDeviceByMac(r.state.store, mac);
            var before := Store.GetDeviceByMac(st.store, mac);
            && d.Some?
            && d.value.status == Online && d.value.lastSeen == env.now
            && d.value.ipAddress == OptionalIpText(ip) && d.value.hostname.None? && d.value.vendor.None?
            && (before.Some? ==> d.value.id == before.value.id && d.value.nickname == before.value.nickname
                                 && d.value.firstSeen == before.value.firstSeen)
            && (before.None? ==> d.value.nickname.None? && d.value.firstSeen == env.now)
  {
    var existing := Store.GetDeviceByMac(st.store, mac);
    Store.UpsertThenGet(st.store, ActivityDevice(existing, mac, ip, env.now));
  }

  /** Activity writes an Info row under "device" exactly when the device is
      new or was not Online, and only when the write succeeds. */
  lemma ActivityLogs(st: State, mac: string, ip: Option<IpAddr>, env: Env)
    ensures var r := HandleDeviceActivity(st, mac, ip, env);
            var before := Store.GetDeviceByMac(st.store, mac);
            var logged := env.logWritesSucceed && (before.None? || before.value.status != Online);
            && |r.state.store.logs| == |st.store.logs| + (if logged then 1 else 0)
            && r.state.store.logs[..|st.store.logs|] == st.store.logs
            && (logged ==>
                  var e := Store.RowToLog(r.state.store.logs[|st.store.logs|]);
                  && e.level == Info && e.category == "device" && e.timestamp == env.now
                  && e.details == OptionalIpText(ip)
                  && e.message == (if before.None? then "New device discovered: " else "Device connected: ") + mac)
  {
  }

  /** The notifications of an activity are exactly those of the enabled
      rules, newest first, that fire for the transition the stored device
      undergoes, each about the upserted record. */
  lemma ActivityNotifies(st: State, mac: string, ip: Option<IpAddr>, env: Env)
    requires Store.GetEnabledRules(st.store).Ok?
    ensures var r := HandleDeviceActivity(st, mac, ip, env);
            var existing := Store.GetDeviceByMac(st.store, mac);
            var device := ActivityDevice(existing, mac, ip, env.now);
            var firing := Seqs.Filter(FiresFor(mac, ActivityTransition(existing)), Store.GetEnabledRules(st.store).value);
            && |r.notifications| == |firing|
            && forall k :: 0 <= k < |firing| ==> r.notifications[k] == NotificationFor(st.notifier.channels, firing[k], device, env)
  {
    var existing := Store.GetDeviceByMac(st.store, mac);
    var device := ActivityDevice(existing, mac, ip, env.now);
    NotifiedRulesAreTheFiringOnes(st.notifier, Store.GetEnabledRules(st.store).value, mac,
                                  ActivityTransition(existing), device, env);
  }

  /** A device that is already Online and shows up again writes no audit
      row and raises no notification. */
  lemma RepeatedActivityIsQuiet(st: State, mac: string, ip: Option<IpAddr>, env: Env)
    requires mac in st.store.devices && Store.DecodeStatus(st.store.devices[mac].status) == Online
    ensures var r := HandleDeviceActivity(st, mac, ip, env);
            r.state.store.logs == st.store.logs && r.notifications == [] && r.state.notifier == st.notifier
  {
    var existing := Store.GetDeviceByMac(st.store, mac);
    var tr := ActivityTransition(existing);
    if Store.GetEnabledRules(st.store).Ok? {
      var rules := Store.GetEnabledRules(st.store).value;
      Seqs.FilterNone(FiresFor(mac, tr), rules);
      NotifiedRulesAreTheFiringOnes(st.notifier, rules, mac, tr, ActivityDevice(existing, mac, ip, env.now), env);
    }
  }

  /** The stored row for `mac` already says what activity at `now` from
      `ip` would write. */
  predicate RecordedAsSeen(st: Store.Store, mac: string, ip: Option<IpAddr>, now: int) {
    && mac in st.devices
    && var row := st.devices[mac];
    && row.ipAddress == OptionalIpText(ip) && row.hostname.None? && row.vendor.None?
    && row.lastSeen == now && row.status == StatusText(Online)
  }

  /** The outcome of a call that changed nothing and sent nothing: that of
      reading the rules. */
  function Unchanged(s: State): Step {
    match Store.GetEnabledRules(s.store)
    case Ok(_) => Step(s, [], Ok(()))
    case Err(e) => Step(s, [], Err(e))
  }

  /** Activity that the stored row already records changes nothing. */
  lemma ActivityAlreadyRecorded(s: State, mac: string, ip: Option<IpAddr>, env: Env)
    requires RecordedAsSeen(s.store, mac, ip, env.now)
    ensures HandleDeviceActivity(s, mac, ip, env) == Unchanged(s)
  {
    Store.StatusRoundTrip(Online);
    RepeatedActivityIsQuiet(s, mac, ip, env);
    var existing := Store.GetDeviceByMac(s.store, mac);
    var device := ActivityDevice(existing, mac, ip, env.now);
    assert Store.UpsertDevice(s.store, device).0 == s.store;
  }

  /** After activity the stored row records it. */
  lemma ActivityIsRecorded(st: State, mac: string, ip: Option<IpAddr>, env: Env)
    ensures RecordedAsSeen(HandleDeviceActivity(st, mac, ip, env).state.store, mac, ip, env.now)
  {
    var existing := Store.GetDeviceByMac(st.store, mac);
    var device := ActivityDevice(existing, mac, ip, env.now);
    var r := HandleDeviceActivity(st, mac, ip, env);
    assert r.state.store.devices[mac] == Store.UpsertDevice(st.store, device).0.devices[mac];
  }

  /** Seeing the same device twice at the same moment: the second time
      changes nothing, sends nothing and ends as the first did. */
  lemma ActivityIdempotent(st: State, mac: string, ip: Option<IpAddr>, env: Env)
    ensures var r1 := HandleDeviceActivity(st, mac, ip, env);
            var r2 := HandleDeviceActivity(r1.state, mac, ip, env);
            r2 == Step(r1.state, [], r1.result)
  {
    var r1 := HandleDeviceActivity(st, mac, ip, env);
    ActivityIsRecorded(st, mac, ip, env);
    ActivityAlreadyRecorded(r1.state, mac, ip, env);
    EnabledRulesDependOnRulesOnly(r1.state.store, st.store);
  }

  // ---------------------------------------------------------------------
  // Disconnection

  /** `handle_device_disconnection(mac)`: nothing happens for an unknown MAC
      or a device already Offline; otherwise the device is marked Offline
      (and seen now), a Warning row is written, and the rules that answer a
      disconnection fire with the stored record marked Offline. */
  function HandleDeviceDisconnection(st: State, mac: string, env: Env): (r: Step)
    ensures r.state.store.devices.Keys == st.store.devices.Keys
    ensures forall m :: m in st.store.devices && m != mac ==> r.state.store.devices[m] == st.store.devices[m]
    ensures r.state.store.rules == st.store.rules
    ensures r.state.notifier.channels == st.notifier.channels
  {
    match Store.GetDeviceByMac(st.store, mac)
    case None => Step(st, [], Ok(()))
    case Some(device) =>
      if device.status == Offline then Step(st, [], Ok(()))
      else
        var store1 := Store.UpdateDeviceStatus(st.store, mac, Offline, env.now);
        var store2 := WriteLog(store1, LogEntry(None, env.now, Warning, "device", "Device disconnected: " + mac,
                                                device.ipAddress), env);
        RunRules(State(store2, st.notifier), mac, Disconnection, device.(status := Offline), env)
  }

  /** Disconnecting an unknown or already Offline device is a no-op. */
  lemma DisconnectionOfAbsentOrOffline(st: State, mac: string, env: Env)
    requires mac !in st.store.devices || Store.DecodeStatus(st.store.devices[mac].status) == Offline
    ensures HandleDeviceDisconnection(st, mac, env) == Step(st, [], Ok(()))
  {
  }

  /** Disconnecting a device that is not Offline marks it Offline and seen
      now (nothing else about it changes), writes one Warning row carrying
      its stored IP when the write succeeds, and notifies exactly the
      enabled rules that admit it and answer a disconnection, about the
      stored record with only its status changed. */
  lemma DisconnectionMarksOffline(st: State, mac: string, env: Env)
    requires mac in st.store.devices && Store.DecodeStatus(st.store.devices[mac].status) != Offline
    ensures var r := HandleDeviceDisconnection(st, mac, env);
            var before := Store.GetDeviceByMac(st.store, mac).value;
            && Store.GetDeviceByMac(r.state.store, mac) == Some(before.(status := Offline, lastSeen := env.now))
            && |r.state.store.logs| == |st.store.logs| + (if env.logWritesSucceed then 1 else 0)
            && (env.logWritesSucceed ==>
                  var e := Store.RowToLog(r.state.store.logs[|st.store.logs|]);
                  && e.level == Warning && e.category == "device" && e.timestamp == env.now
                  && e.message == "Device disconnected: " + mac && e.details == before.ipAddress)
            && (r.result.Ok? <==> Store.GetEnabledRules(st.store).Ok?)
            && (r.result.Ok? ==>
                  var firing := Seqs.Filter(FiresFor(mac, Disconnection), Store.GetEnabledRules(st.store).value);
                  && |r.notifications| == |firing|
                  && forall k :: 0 <= k < |firing| ==>
                       r.notifications[k] == NotificationFor(st.notifier.channels, firing[k], before.(status := Offline), env))
  {
    var before := Store.GetDeviceByMac(st.store, mac).value;
    var store1 := Store.UpdateDeviceStatus(st.store, mac, Offline, env.now);
    var store2 := WriteLog(store1, LogEntry(None, env.now, Warning, "device", "Device disconnected: " + mac,
                                            before.ipAddress), env);
    EnabledRulesDependOnRulesOnly(store2, st.store);
    if Store.GetEnabledRules(st.store).Ok? {
      NotifiedRulesAreTheFiringOnes(st.notifier, Store.GetEnabledRules(st.store).value, mac, Disconnection,
                                    before.(status := Offline), env);
    }
  }

  /** A second disconnection of the same device does nothing, whether or
      not the first one could read the rules. */
  lemma DisconnectionIdempotent(st: State, mac: string, env1: Env, env2: Env)
    ensures var r1 := HandleDeviceDisconnection(st, mac, env1);
            HandleDeviceDisconnection(r1.state, mac, env2) == Step(r1.state, [], Ok(()))
  {
    var r1 := HandleDeviceDisconnection(st, mac, env1);
    if mac in st.store.devices && Store.DecodeStatus(st.store.devices[mac].status) != Offline {
      DisconnectionMarksOffline(st, mac, env1);
    }
    DisconnectionOfAbsentOrOffline(r1.state, mac, env2);
  }

  /** Whatever its status before, a known device is Offline after its
      disconnection. */
  lemma DisconnectionLeavesOffline(st: State, mac: string, env: Env)
    ensures mac in st.store.devices ==>
              Store.GetDeviceByMac(HandleDeviceDisconnection(st, mac, env).state.store, mac).value.status == Offline
  {
    if mac in st.store.devices && Store.DecodeStatus(st.store.devices[mac].status) != Offline {
      DisconnectionMarksOffline(st, mac, env);
    }
  }

  // ---------------------------------------------------------------------
  // Events

  /** The MAC address an event is about. */
  function EventMac(ev: NetworkEvent): string {
    match ev
    case ArpRequest(mac, _) => mac
    case ArpReply(mac, _) => mac
    case DhcpRequest(mac, _) => mac
    case NeighborAdded(mac, _, _) => mac
    case NeighborRemoved(mac, _, _) => mac
    case NeighborUpdated(mac, _, _) => mac
  }

  /** The address an activity event carries, if any. */
  function EventIp(ev: NetworkEvent): Option<IpAddr>
    requires !ev.NeighborRemoved?
  {
    match ev
    case ArpRequest(_, ip) => Some(ip)
    case ArpReply(_, ip) => Some(ip)
    case DhcpRequest(_, ip) => ip
    case NeighborAdded(_, ip, _) => Some(ip)
    case NeighborUpdated(_, ip, _) => Some(ip)
  }

  /** `handle_event`: ARP traffic, DHCP requests and neighbour additions or
      updates are activity of their MAC; a neighbour removal is its
      disconnection. */
  function HandleEvent(st: State, ev: NetworkEvent, env: Env): (r: Step)
    ensures r.state.store.rules == st.store.rules && r.state.notifier.channels == st.notifier.channels
    ensures r.result.Err? ==> Store.GetEnabledRules(st.store).Err?
  {
    if ev.NeighborRemoved? then HandleDeviceDisconnection(st, ev.mac, env)
    else HandleDeviceActivity(st, EventMac(ev), EventIp(ev), env)
  }

  /** Only the event's own device changes and no device is ever removed;
      only a removal can leave the device anything but Online, and a
      removal of an unknown MAC does nothing. */
  lemma HandleEventEffects(st: State, ev: NetworkEvent, env: Env)
    ensures var r := HandleEvent(st, ev, env);
            && r.state.store.devices.Keys >= st.store.devices.Keys
            && (forall m :: m in st.store.devices && m != EventMac(ev) ==> r.state.store.devices[m] == st.store.devices[m])
            && (!ev.NeighborRemoved? ==>
                  var d := Store.GetDeviceByMac(r.state.store, EventMac(ev));
                  d.Some? && d.value.status == Online && d.value.lastSeen == env.now)
            && (ev.NeighborRemoved? && ev.mac in st.store.devices ==>
                  Store.GetDeviceByMac(r.state.store, ev.mac).value.status == Offline)
            && (ev.NeighborRemoved? && ev.mac !in st.store.devices ==> r == Step(st, [], Ok(())))
  {
    if ev.NeighborRemoved? {
      DisconnectionLeavesOffline(st, ev.mac, env);
    } else {
      ActivityRecordsDevice(st, EventMac(ev), EventIp(ev), env);
    }
  }

  /** Handling an event keeps the id counters ahead of every stored id. */
  lemma HandleEventKeepsValid(st: State, ev: NetworkEvent, env: Env)
    ensures Store.Valid(st.store) ==> Store.Valid(HandleEvent(st, ev, env).state.store)
  {
    if Store.Valid(st.store) {
      if ev.NeighborRemoved? {
        var mac := ev.mac;
        if mac in st.store.devices && Store.DecodeStatus(st.store.devices[mac].status) != Offline {
          var device := Store.GetDeviceByMac(st.store, mac).value;
          var store1 := Store.UpdateDeviceStatus(st.store, mac, Offline, env.now);
          var store2 := WriteLog(store1, LogEntry(None, env.now, Warning, "device", "Device disconnected: " + mac,
                                                  device.ipAddress), env);
          assert HandleEvent(st, ev, env).state.store == store2;
        }
      } else {
        var mac := EventMac(ev);
        var existing := Store.GetDeviceByMac(st.store, mac);
        var device := ActivityDevice(existing, mac, EventIp(ev), env.now);
        var store1 := Store.UpsertDevice(st.store, device).0;
        var msg := ActivityMessage(existing, mac);
        var store2 :=
          if msg.Some? then WriteLog(store1, LogEntry(None, env.now, Info, "device", msg.value, OptionalIpText(EventIp(ev))), env)
          else store1;
        assert HandleEvent(st, ev, env).state.store == store2;
      }
    }
  }

  /** What `process_events` leaves behind: the final state, every
      notification raised and every error reported. */
  datatype Run = Run(state: State, notifications: seq<Notification>, errors: seq<DaemonError>)

  type Handler = (State, (NetworkEvent, Env)) -> Step

  /** `handle_event` as the loop calls it. */
  function EventHandler(): Handler {
    (st: State, ev: (NetworkEvent, Env)) => HandleEvent(st, ev.0, ev.1)
  }

  function ErrorsOf(step: Step): seq<DaemonError> {
    if step.result.Err? then [step.result.error] else []
  }

  /** The loop of `process_events` over any handler: each event in arrival
      order; a failed event is reported and the loop goes on. One error is
      reported per failed event and no more. */
  function Drive(handle: Handler, st: State, events: seq<(NetworkEvent, Env)>): (r: Run)
    ensures |r.errors| <= |events|
    ensures (forall s, ev :: handle(s, ev).result.Ok?) ==> r.errors == []
    decreases |events|
  {
    if |events| == 0 then Run(st, [], [])
    else
      var step := handle(st, events[0]);
      var rest := Drive(handle, step.state, events[1..]);
      Run(rest.state, step.notifications + rest.notifications, ErrorsOf(step) + rest.errors)
  }

  /** One event: the handler's outcome, its error (if any) reported. */
  lemma DriveOne(handle: Handler, st: State, ev: (NetworkEvent, Env))
    ensures var step := handle(st, ev);
            Drive(handle, st, [ev]) == Run(step.state, step.notifications, ErrorsOf(step))
  {
    assert [ev][1..] == [];
    var step := handle(st, ev);
    assert step.notifications + [] == step.notifications;
    assert ErrorsOf(step) + [] == ErrorsOf(step);
  }

  lemma {:induction false} DriveSplits(handle: Handler, st: State, a: seq<(NetworkEvent, Env)>,
                                       b: seq<(NetworkEvent, Env)>)
    ensures var ra := Drive(handle, st, a);
            var rb := Drive(handle, ra.state, b);
            Drive(handle, st, a + b) == Run(rb.state, ra.notifications + rb.notifications, ra.errors + rb.errors)
    decreases |a|
  {
    if |a| == 0 {
      assert a + b == b;
    } else {
      assert (a + b)[0] == a[0] && (a + b)[1..] == a[1..] + b;
      var step := handle(st, a[0]);
      DriveSplits(handle, step.state, a[1..], b);
      var ra' := Drive(handle, step.state, a[1..]);
      var rb := Drive(handle, ra'.state, b);
      assert step.notifications + (ra'.notifications + rb.notifications)
          == (step.notifications + ra'.notifications) + rb.notifications;
      assert ErrorsOf(step) + (ra'.errors + rb.errors) == (ErrorsOf(step) + ra'.errors) + rb.errors;
    }
  }

  /** `process_events`: every event, each with its own clock reading,
      through `handle_event`; at most one error per event. */
  function ProcessEvents(st: State, events: seq<(NetworkEvent, Env)>): (r: Run)
    ensures |r.errors| <= |events|
  {
    Drive(EventHandler(), st, events)
  }

  /** Processing `a + b` is processing `a` and then `b` from where it left
      off, whatever errors `a` reported: a failed event never stops the
      events after it. */
  lemma ProcessEventsSplits(st: State, a: seq<(NetworkEvent, Env)>, b: seq<(NetworkEvent, Env)>)
    ensures var ra := ProcessEvents(st, a);
            var rb := ProcessEvents(ra.state, b);
            ProcessEvents(st, a + b) == Run(rb.state, ra.notifications + rb.notifications, ra.errors + rb.errors)
  {
    DriveSplits(EventHandler(), st, a, b);
  }

  /** A failed event is reported and the next one is still handled, from
      the state the failure left. */
  lemma FailureDoesNotStopLoop(st: State, ev: (NetworkEvent, Env), rest: seq<(NetworkEvent, Env)>)
    ensures var step := HandleEvent(st, ev.0, ev.1);
            var r := ProcessEvents(st, [ev] + rest);
            step.result.Err? ==> |r.errors| > 0 && r.errors[0] == step.result.error
                                 && r.state == ProcessEvents(step.state, rest).state
  {
    assert ([ev] + rest)[0] == ev && ([ev] + rest)[1..] == rest;
  }
}
