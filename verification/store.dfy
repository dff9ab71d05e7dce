/** The persistence layer (daemon/src/db.rs) as an abstract store: devices in
    a map keyed by MAC address (the table's UNIQUE column), rules and audit
    log rows in table order. Enumerations are stored as their display text and
    decoded on every read, as the SQL rows are. No SQL, pool or RFC 3339 text
    is modelled; timestamps are whole seconds. */
module Store {
  import opened Wrappers
  import opened Models
  import opened Errors
  import Seqs

  /** A `devices` row without its MAC column: the MAC is the map key. */
  datatype DeviceRow = DeviceRow(
    id: int,
    ipAddress: Option<string>,
    hostname: Option<string>,
    nickname: Option<string>,
    vendor: Option<string>,
    firstSeen: int,
    lastSeen: int,
    status: string)

  /** The `notification_channels` column of a rule: JSON text that either
      decodes to a list of names or does not, with the parser's complaint. */
  datatype ChannelList = Names(names: seq<string>) | Undecodable(reason: string)

  datatype RuleRow = RuleRow(
    id: int,
    name: string,
    description: Option<string>,
    triggerType: string,
    macFilter: Option<string>,
    enabled: bool,
    channels: ChannelList,
    createdAt: int,
    updatedAt: int)

  datatype LogRow = LogRow(
    id: int,
    timestamp: int,
    level: string,
    category: string,
    message: string,
    details: Option<string>)

  datatype Store = Store(
    devices: map<string, DeviceRow>,
    nextDeviceId: int,
    rules: seq<RuleRow>,
    logs: seq<LogRow>,
    nextLogId: int)

  /** The id counters are ahead of every id handed out, as the tables'
      AUTOINCREMENT keys are: a new row's id was never used before. */
  predicate Valid(st: Store) {
    && (forall m :: m in st.devices ==> st.devices[m].id < st.nextDeviceId)
    && (forall i :: 0 <= i < |st.logs| ==> st.logs[i].id < st.nextLogId)
  }

  // ---------------------------------------------------------------------
  // Decoding the text columns

  /** `row_to_device`'s status decoding: the inverse of the display text,
      with every unrecognised text read as Unknown. */
  function DecodeStatus(t: string): (s: DeviceStatus)
    ensures t == StatusText(s) || (s == Unknown && forall k :: StatusText(k) != t)
  {
    match t
    case "online" => Online
    case "offline" => Offline
    case _ => Unknown
  }

  lemma StatusRoundTrip(s: DeviceStatus)
    ensures DecodeStatus(StatusText(s)) == s
  {
  }

  const InvalidTrigger := Database("error occurred while decoding: Invalid trigger type")

  /** `row_to_rule`'s trigger decoding: the inverse of the display text, and
      a decoding error for any other text. */
  function DecodeTrigger(t: string): (r: Result<TriggerType, DaemonError>)
    ensures r.Ok? ==> TriggerText(r.value) == t
    ensures r.Err? ==> r.error == InvalidTrigger && forall k :: TriggerText(k) != t
  {
    match t
    case "device_connected" => Ok(DeviceConnected)
    case "device_disconnected" => Ok(DeviceDisconnected)
    case "new_device" => Ok(NewDevice)
    case "device_status_change" => Ok(DeviceStatusChange)
    case _ => Err(InvalidTrigger)
  }

  lemma TriggerRoundTrip(t: TriggerType)
    ensures DecodeTrigger(TriggerText(t)) == Ok(t)
  {
  }

  /** `row_to_log`'s level decoding: the inverse of the display text, with
      every unrecognised text read as Info. */
  function DecodeLevel(t: string): (l: LogLevel)
    ensures t == LevelText(l) || (l == Info && forall k :: LevelText(k) != t)
  {
    match t
    case "info" => Info
    case "warning" => Warning
    case "error" => Error
    case "debug" => Debug
    case _ => Info
  }

  lemma LevelRoundTrip(l: LogLevel)
    ensures DecodeLevel(LevelText(l)) == l
  {
  }

  /** `row_to_device`: the key and every column read back into the device;
      the status text decoded. */
  function RowToDevice(mac: string, row: DeviceRow): (d: Device)
    ensures d.macAddress == mac && d.id == Some(row.id)
    ensures d.ipAddress == row.ipAddress && d.hostname == row.hostname && d.nickname == row.nickname
    ensures d.vendor == row.vendor && d.firstSeen == row.firstSeen && d.lastSeen == row.lastSeen
    ensures StatusText(d.status) == row.status || (d.status == Unknown && forall k :: StatusText(k) != row.status)
  {
    Device(Some(row.id), mac, row.ipAddress, row.hostname, row.nickname, row.vendor,
           row.firstSeen, row.lastSeen, DecodeStatus(row.status))
  }

  /** `row_to_rule`: the trigger text is checked first, then the channel list. */
  function RowToRule(row: RuleRow): (r: Result<Rule, DaemonError>)
    ensures r.Ok? <==> DecodeTrigger(row.triggerType).Ok? && row.channels.Names?
    ensures r.Ok? ==> TriggerText(r.value.triggerType) == row.triggerType
                      && r.value.notificationChannels == row.channels.names
                      && r.value.enabled == row.enabled && r.value.createdAt == row.createdAt
    ensures r.Ok? ==> r.value == Rule(Some(row.id), row.name, row.description, r.value.triggerType, row.macFilter,
                                      row.enabled, row.channels.names, row.createdAt, row.updatedAt)
    ensures DecodeTrigger(row.triggerType).Err? ==> r == Err(InvalidTrigger)
    ensures DecodeTrigger(row.triggerType).Ok? && row.channels.Undecodable? ==> r == Err(Serialization(row.channels.reason))
  {
    var trigger :- DecodeTrigger(row.triggerType);
    match row.channels
    case Undecodable(reason) => Err(Serialization(reason))
    case Names(names) =>
      Ok(Rule(Some(row.id), row.name, row.description, trigger, row.macFilter, row.enabled,
              names, row.createdAt, row.updatedAt))
  }

  /** The columns `create_rule` writes for a rule under the id SQLite
      assigns: the trigger as its display text, the channel names as JSON. */
  function RuleToRow(id: int, rule: Rule): RuleRow {
    RuleRow(id, rule.name, rule.description, TriggerText(rule.triggerType), rule.macFilter, rule.enabled,
            Names(rule.notificationChannels), rule.createdAt, rule.updatedAt)
  }

  /** A rule written by `create_rule` reads back as that rule, under its
      assigned id. */
  lemma RuleRowRoundTrip(id: int, rule: Rule)
    ensures RowToRule(RuleToRow(id, rule)) == Ok(rule.(id := Some(id)))
  {
    TriggerRoundTrip(rule.triggerType);
  }

  /** `row_to_log`: every column read back into the entry; the level text
      decoded. */
  function RowToLog(row: LogRow): (e: LogEntry)
    ensures e.id == Some(row.id) && e.timestamp == row.timestamp
    ensures e.category == row.category && e.message == row.message && e.details == row.details
    ensures LevelText(e.level) == row.level || (e.level == Info && forall k :: LevelText(k) != row.level)
  {
    LogEntry(Some(row.id), row.timestamp, DecodeLevel(row.level), row.category, row.message, row.details)
  }

  // ---------------------------------------------------------------------
  // Devices

  /** `upsert_device`: a new MAC inserts every field under a fresh id; a known
      MAC overwrites ip, hostname, vendor, last seen and status only, keeping
      its id, nickname and first-seen time. Returns the row's id. */
  function UpsertDevice(st: Store, d: Device): (r: (Store, int))
    ensures r.0.devices.Keys == st.devices.Keys + {d.macAddress}
    ensures forall m :: m in st.devices && m != d.macAddress ==> r.0.devices[m] == st.devices[m]
    ensures var row := r.0.devices[d.macAddress];
            && row.id == r.1
            && row.ipAddress == d.ipAddress && row.hostname == d.hostname && row.vendor == d.vendor
            && row.lastSeen == d.lastSeen && DecodeStatus(row.status) == d.status
    ensures d.macAddress in st.devices ==>
              var before := st.devices[d.macAddress];
              var row := r.0.devices[d.macAddress];
              row.id == before.id && row.nickname == before.nickname && row.firstSeen == before.firstSeen
    ensures d.macAddress !in st.devices ==>
              var row := r.0.devices[d.macAddress];
              row.nickname == d.nickname && row.firstSeen == d.firstSeen
    ensures r.0.rules == st.rules && r.0.logs == st.logs
    ensures Valid(st) ==> Valid(r.0)
    ensures Valid(st) && d.macAddress !in st.devices ==> forall m :: m in st.devices ==> st.devices[m].id != r.1
  {
    var mac := d.macAddress;
    if mac in st.devices then
      var before := st.devices[mac];
      var row := before.(ipAddress := d.ipAddress, hostname := d.hostname, vendor := d.vendor,
                         lastSeen := d.lastSeen, status := StatusText(d.status));
      (st.(devices := st.devices[mac := row]), before.id)
    else
      var row := DeviceRow(st.nextDeviceId, d.ipAddress, d.hostname, d.nickname, d.vendor,
                           d.firstSeen, d.lastSeen, StatusText(d.status));
      (st.(devices := st.devices[mac := row], nextDeviceId := st.nextDeviceId + 1), st.nextDeviceId)
  }

  /** `get_device_by_mac`: exact, case-sensitive lookup. */
  function GetDeviceByMac(st: Store, mac: string): (r: Option<Device>)
    ensures r.Some? <==> mac in st.devices
    ensures r.Some? ==> r.value.macAddress == mac && r.value.id == Some(st.devices[mac].id)
    ensures r.Some? ==> var row := st.devices[mac];
              && r.value.ipAddress == row.ipAddress && r.value.hostname == row.hostname
              && r.value.nickname == row.nickname && r.value.vendor == row.vendor
              && r.value.firstSeen == row.firstSeen && r.value.lastSeen == row.lastSeen
              && r.value.status == DecodeStatus(row.status)
  {
    if mac in st.devices then Some(RowToDevice(mac, st.devices[mac])) else None
  }

  /** Reading back an upserted device gives what was written, except the id,
      nickname and first-seen time, which a known MAC keeps. */
  lemma UpsertThenGet(st: Store, d: Device)
    ensures var (st', id) := UpsertDevice(st, d);
            var before := GetDeviceByMac(st, d.macAddress);
            GetDeviceByMac(st', d.macAddress) ==
              if before.Some? then
                Some(d.(id := before.value.id, nickname := before.value.nickname, firstSeen := before.value.firstSeen))
              else Some(d.(id := Some(id)))
  {
    StatusRoundTrip(d.status);
  }

  function LastSeen(d: Device): int {
    d.lastSeen
  }

  /** What `get_devices_by_status` returns: each row with that status text
      exactly once, decoded, newest `last_seen` first. */
  ghost predicate IsStatusQueryResult(st: Store, status: DeviceStatus, rows: seq<Device>) {
    && (forall i :: 0 <= i < |rows| ==>
          && rows[i].macAddress in st.devices
          && st.devices[rows[i].macAddress].status == StatusText(status)
          && rows[i] == RowToDevice(rows[i].macAddress, st.devices[rows[i].macAddress]))
    && (forall m :: m in st.devices && st.devices[m].status == StatusText(status) ==>
          exists i :: 0 <= i < |rows| && rows[i].macAddress == m)
    && (forall i, j :: 0 <= i < j < |rows| ==> rows[i].macAddress != rows[j].macAddress)
    && Seqs.SortedDesc(rows, LastSeen)
  }

  /** Every listed row has the queried status text, is decoded from the
      store, and is no longer pending. */
  ghost predicate RowsListed(st: Store, text: string, pending: set<string>, rows: seq<Device>) {
    forall i :: 0 <= i < |rows| ==>
      && rows[i].macAddress in st.devices
      && st.devices[rows[i].macAddress].status == text
      && rows[i] == RowToDevice(rows[i].macAddress, st.devices[rows[i].macAddress])
      && rows[i].macAddress !in pending
  }

  /** Every matching MAC is either still pending or already listed. */
  ghost predicate MatchesCovered(st: Store, text: string, pending: set<string>, rows: seq<Device>) {
    forall m :: m in st.devices && st.devices[m].status == text ==>
      m in pending || exists i :: 0 <= i < |rows| && rows[i].macAddress == m
  }

  ghost predicate DistinctMacs(rows: seq<Device>) {
    forall i, j :: 0 <= i < j < |rows| ==> rows[i].macAddress != rows[j].macAddress
  }

  /** The state of the query part way through: `rows` holds, sorted, the
      matching devices no longer `pending`. */
  ghost predicate PartialQuery(st: Store, text: string, pending: set<string>, rows: seq<Device>) {
    && (forall m :: m in pending ==> m in st.devices && st.devices[m].status == text)
    && RowsListed(st, text, pending, rows)
    && MatchesCovered(st, text, pending, rows)
    && DistinctMacs(rows)
    && Seqs.SortedDesc(rows, LastSeen)
  }

  lemma RowsListedStep(st: Store, text: string, pending: set<string>, rows: seq<Device>, m: string)
    requires RowsListed(st, text, pending, rows) && m in pending
    requires m in st.devices && st.devices[m].status == text
    ensures RowsListed(st, text, pending - {m}, Seqs.InsertDesc(rows, RowToDevice(m, st.devices[m]), LastSeen))
  {
    var d := RowToDevice(m, st.devices[m]);
    Seqs.InsertDescShape(rows, d, LastSeen);
  }

  lemma MatchesCoveredStep(st: Store, text: string, pending: set<string>, rows: seq<Device>, m: string)
    requires MatchesCovered(st, text, pending, rows) && m in pending && m in st.devices
    ensures MatchesCovered(st, text, pending - {m}, Seqs.InsertDesc(rows, RowToDevice(m, st.devices[m]), LastSeen))
  {
    var d := RowToDevice(m, st.devices[m]);
    var k := Seqs.InsertPos(rows, d, LastSeen);
    var next := Seqs.InsertDesc(rows, d, LastSeen);
    Seqs.InsertDescShape(rows, d, LastSeen);
    forall m' | m' in st.devices && st.devices[m'].status == text && m' !in pending - {m}
      ensures exists i :: 0 <= i < |next| && next[i].macAddress == m'
    {
      if m' == m {
        assert next[k].macAddress == m';
      } else {
        var i :| 0 <= i < |rows| && rows[i].macAddress == m';
        if i < k {
          assert next[i].macAddress == m';
        } else {
          assert next[i + 1].macAddress == m';
        }
      }
    }
  }

  lemma DistinctMacsStep(rows: seq<Device>, d: Device)
    requires DistinctMacs(rows)
    requires forall i :: 0 <= i < |rows| ==> rows[i].macAddress != d.macAddress
    ensures DistinctMacs(Seqs.InsertDesc(rows, d, LastSeen))
  {
    Seqs.InsertDescShape(rows, d, LastSeen);
  }

  lemma PartialQueryStep(st: Store, text: string, pending: set<string>, rows: seq<Device>, m: string)
    requires PartialQuery(st, text, pending, rows) && m in pending
    ensures PartialQuery(st, text, pending - {m}, Seqs.InsertDesc(rows, RowToDevice(m, st.devices[m]), LastSeen))
  {
    var d := RowToDevice(m, st.devices[m]);
    RowsListedStep(st, text, pending, rows, m);
    MatchesCoveredStep(st, text, pending, rows, m);
    DistinctMacsStep(rows, d);
    Seqs.InsertDescSorted(rows, d, LastSeen);
  }

  /** `get_devices_by_status`. Rows with equal `last_seen` come back in an
      order SQLite does not fix, so the choice among them is left open. */
  method GetDevicesByStatus(st: Store, status: DeviceStatus) returns (rows: seq<Device>)
    ensures IsStatusQueryResult(st, status, rows)
  {
    var text := StatusText(status);
    var pending := set m | m in st.devices && st.devices[m].status == text;
    rows := [];
    while pending != {}
      invariant PartialQuery(st, text, pending, rows)
      decreases pending
    {
      var m :| m in pending;
      PartialQueryStep(st, text, pending, rows, m);
      rows := Seqs.InsertDesc(rows, RowToDevice(m, st.devices[m]), LastSeen);
      pending := pending - {m};
    }
  }

  /** `update_device_status`: the matching row gets the new status and
      `last_seen = now`; an unknown MAC changes nothing. */
  function UpdateDeviceStatus(st: Store, mac: string, status: DeviceStatus, now: int): (r: Store)
    ensures r.devices.Keys == st.devices.Keys
    ensures forall m :: m in st.devices && m != mac ==> r.devices[m] == st.devices[m]
    ensures mac in st.devices ==>
              GetDeviceByMac(r, mac) == Some(RowToDevice(mac, st.devices[mac]).(status := status, lastSeen := now))
    ensures mac !in st.devices ==> r == st
    ensures r.rules == st.rules && r.logs == st.logs
    ensures Valid(st) ==> Valid(r)
  {
    if mac in st.devices then
      StatusRoundTrip(status);
      st.(devices := st.devices[mac := st.devices[mac].(status := StatusText(status), lastSeen := now)])
    else st
  }

  /** `update_device_nickname`: only the nickname of the matching row. */
  function UpdateDeviceNickname(st: Store, mac: string, nickname: Option<string>): (r: Store)
    ensures r.devices.Keys == st.devices.Keys
    ensures forall m :: m in st.devices && m != mac ==> r.devices[m] == st.devices[m]
    ensures mac in st.devices ==>
              GetDeviceByMac(r, mac) == Some(RowToDevice(mac, st.devices[mac]).(nickname := nickname))
    ensures mac !in st.devices ==> r == st
    ensures r.rules == st.rules && r.logs == st.logs
    ensures Valid(st) ==> Valid(r)
  {
    if mac in st.devices then
      st.(devices := st.devices[mac := st.devices[mac].(nickname := nickname)])
    else st
  }

  // ---------------------------------------------------------------------
  // Rules

  /** Decodes rows in order, as `collect::<Result<Vec<_>>>` does: the first
      row that fails decides the error, and the whole call fails. */
  function CollectRules(rows: seq<RuleRow>): (r: Result<seq<Rule>, DaemonError>)
    ensures r.Ok? <==> forall i :: 0 <= i < |rows| ==> RowToRule(rows[i]).Ok?
    ensures r.Ok? ==> |r.value| == |rows| && forall i :: 0 <= i < |rows| ==> Ok(r.value[i]) == RowToRule(rows[i])
    ensures r.Err? ==> exists i :: 0 <= i < |rows| && RowToRule(rows[i]) == Err(r.error)
                                   && forall j :: 0 <= j < i ==> RowToRule(rows[j]).Ok?
  {
    if |rows| == 0 then Ok([])
    else
      var first :- RowToRule(rows[0]);
      var rest := CollectRules(rows[1..]);
      assert forall i :: 1 <= i < |rows| ==> rows[1..][i - 1] == rows[i];
      match rest
      case Err(e) =>
        var i :| 0 <= i < |rows[1..]| && RowToRule(rows[1..][i]) == Err(e)
                 && forall j :: 0 <= j < i ==> RowToRule(rows[1..][j]).Ok?;
        assert RowToRule(rows[i + 1]) == Err(e);
        Err(e)
      case Ok(tail) => Ok([first] + tail)
  }

  predicate RuleEnabled(row: RuleRow) {
    row.enabled
  }

  function RuleCreated(row: RuleRow): int {
    row.createdAt
  }

  /** The rows `get_enabled_rules` reads, in the order it reads them: the
      enabled rows, newest first. */
  function EnabledRowsNewestFirst(st: Store): (rows: seq<RuleRow>)
    ensures |rows| == Seqs.Count(RuleEnabled, st.rules)
    ensures forall k :: 0 <= k < |rows| ==> rows[k].enabled && rows[k] in st.rules
    ensures forall i :: 0 <= i < |st.rules| && st.rules[i].enabled ==> st.rules[i] in rows
    ensures forall k, l :: 0 <= k < l < |rows| ==> rows[k].createdAt >= rows[l].createdAt
  {
    var enabled := Seqs.Filter(RuleEnabled, st.rules);
    var ordered := Seqs.SortDesc(enabled, RuleCreated);
    EnabledOrdering(st.rules, enabled, ordered);
    ordered
  }

  lemma EnabledOrdering(all: seq<RuleRow>, enabled: seq<RuleRow>, ordered: seq<RuleRow>)
    requires enabled == Seqs.Filter(RuleEnabled, all)
    requires multiset(ordered) == multiset(enabled) && Seqs.SortedDesc(ordered, RuleCreated)
    ensures |ordered| == |enabled|
    ensures forall k :: 0 <= k < |ordered| ==> ordered[k].enabled && ordered[k] in all
    ensures forall i :: 0 <= i < |all| && all[i].enabled ==> all[i] in ordered
    ensures forall k, l :: 0 <= k < l < |ordered| ==> ordered[k].createdAt >= ordered[l].createdAt
  {
    assert |ordered| == |multiset(ordered)| == |enabled|;
    SameElements(enabled, ordered);
    OrderedAreEnabled(all, enabled, ordered);
    EnabledAreOrdered(all, enabled, ordered);
    forall k, l | 0 <= k < l < |ordered| ensures ordered[k].createdAt >= ordered[l].createdAt {
      assert RuleCreated(ordered[k]) >= RuleCreated(ordered[l]);
    }
  }

  lemma OrderedAreEnabled(all: seq<RuleRow>, enabled: seq<RuleRow>, ordered: seq<RuleRow>)
    requires enabled == Seqs.Filter(RuleEnabled, all)
    requires forall k :: 0 <= k < |ordered| ==> ordered[k] in enabled
    ensures forall k :: 0 <= k < |ordered| ==> ordered[k].enabled && ordered[k] in all
  {
    forall k | 0 <= k < |ordered| ensures ordered[k].enabled && ordered[k] in all {
      var j :| 0 <= j < |enabled| && enabled[j] == ordered[k];
      assert RuleEnabled(enabled[j]);
    }
  }

  lemma EnabledAreOrdered(all: seq<RuleRow>, enabled: seq<RuleRow>, ordered: seq<RuleRow>)
    requires enabled == Seqs.Filter(RuleEnabled, all)
    requires forall k :: 0 <= k < |enabled| ==> enabled[k] in ordered
    ensures forall i :: 0 <= i < |all| && all[i].enabled ==> all[i] in ordered
  {
    forall i | 0 <= i < |all| && all[i].enabled ensures all[i] in ordered {
      assert RuleEnabled(all[i]);
      var j :| 0 <= j < |enabled| && enabled[j] == all[i];
    }
  }

  /** `get_enabled_rules`: the enabled rows, newest first. The call succeeds
      exactly when every enabled row decodes; disabled rows are never read. */
  function GetEnabledRules(st: Store): (r: Result<seq<Rule>, DaemonError>)
    ensures r.Ok? <==> forall i :: 0 <= i < |st.rules| && st.rules[i].enabled ==> RowToRule(st.rules[i]).Ok?
  {
    CollectRules(EnabledRowsNewestFirst(st))
  }

  /** A successful `get_enabled_rules` returns only enabled rules, newest
      first. */
  lemma EnabledRulesOrdered(st: Store)
    ensures GetEnabledRules(st).Ok? ==>
              var rules := GetEnabledRules(st).value;
              (forall k :: 0 <= k < |rules| ==> rules[k].enabled)
              && forall k, l :: 0 <= k < l < |rules| ==> rules[k].createdAt >= rules[l].createdAt
  {
    if GetEnabledRules(st).Ok? {
      var rows := EnabledRowsNewestFirst(st);
      var rules := GetEnabledRules(st).value;
      assert forall k :: 0 <= k < |rules| ==> Ok(rules[k]) == RowToRule(rows[k]);
    }
  }

  /** On success `get_enabled_rules` returns one decoded rule per enabled
      row and nothing else. */
  lemma EnabledRulesAreTheEnabledRows(st: Store)
    ensures GetEnabledRules(st).Ok? ==>
              var rules := GetEnabledRules(st).value;
              && |rules| == Seqs.Count(RuleEnabled, st.rules)
              && (forall k :: 0 <= k < |rules| ==> DecodedRuleOf(rules[k], st.rules))
              && (forall i :: 0 <= i < |st.rules| && st.rules[i].enabled ==> RowToRule(st.rules[i]).value in rules)
  {
    var rows := EnabledRowsNewestFirst(st);
    if CollectRules(rows).Ok? {
      var rules := CollectRules(rows).value;
      DecodedRows(st.rules, rows, rules);
    }
  }

  /** `rule` is what decoding one of the enabled `rows` gives. */
  ghost predicate DecodedRuleOf(rule: Rule, rows: seq<RuleRow>) {
    exists i :: 0 <= i < |rows| && rows[i].enabled && RowToRule(rows[i]) == Ok(rule)
  }

  /** `rule` is what decoding one of `rows` gives. */
  ghost predicate DecodedRowOf(rule: Rule, rows: seq<RuleRow>) {
    exists i :: 0 <= i < |rows| && RowToRule(rows[i]) == Ok(rule)
  }

  /** Rules decoded position by position from rows drawn from `all`: each
      rule comes from an enabled row of `all` when the rows are enabled,
      from some row in any case, and each row of `all` that was read has
      its rule among them. */
  lemma DecodedRows(all: seq<RuleRow>, rows: seq<RuleRow>, rules: seq<Rule>)
    requires |rules| == |rows| && forall k :: 0 <= k < |rows| ==> Ok(rules[k]) == RowToRule(rows[k])
    requires forall k :: 0 <= k < |rows| ==> rows[k] in all
    ensures forall k :: 0 <= k < |rules| ==> DecodedRowOf(rules[k], all)
    ensures (forall k :: 0 <= k < |rows| ==> rows[k].enabled) ==>
              forall k :: 0 <= k < |rules| ==> DecodedRuleOf(rules[k], all)
    ensures forall i :: 0 <= i < |all| && all[i] in rows ==> RowToRule(all[i]).Ok? && RowToRule(all[i]).value in rules
  {
    forall k | 0 <= k < |rules| ensures DecodedRowOf(rules[k], all) && (rows[k].enabled ==> DecodedRuleOf(rules[k], all)) {
      var i :| 0 <= i < |all| && all[i] == rows[k];
    }
    forall i | 0 <= i < |all| && all[i] in rows ensures RowToRule(all[i]).Ok? && RowToRule(all[i]).value in rules {
      var k :| 0 <= k < |rows| && rows[k] == all[i];
      assert rules[k] == RowToRule(all[i]).value;
    }
  }

  /** `get_all_rules`: every row, newest first; one bad row fails the call. */
  function GetAllRules(st: Store): (r: Result<seq<Rule>, DaemonError>)
    ensures r.Ok? <==> forall i :: 0 <= i < |st.rules| ==> RowToRule(st.rules[i]).Ok?
    ensures r.Ok? ==> |r.value| == |st.rules|
  {
    CollectRules(AllRowsNewestFirst(st))
  }

  /** The rows `get_all_rules` reads, in the order it reads them: all rows,
      newest first. */
  function AllRowsNewestFirst(st: Store): (rows: seq<RuleRow>)
    ensures |rows| == |st.rules|
    ensures forall k :: 0 <= k < |rows| ==> rows[k] in st.rules
    ensures forall i :: 0 <= i < |st.rules| ==> st.rules[i] in rows
    ensures forall k, l :: 0 <= k < l < |rows| ==> rows[k].createdAt >= rows[l].createdAt
  {
    var ordered := Seqs.SortDesc(st.rules, RuleCreated);
    assert |ordered| == |multiset(ordered)| == |st.rules|;
    SameElements(st.rules, ordered);
    forall k, l | 0 <= k < l < |ordered| ensures ordered[k].createdAt >= ordered[l].createdAt {
      assert RuleCreated(ordered[k]) >= RuleCreated(ordered[l]);
    }
    ordered
  }

  /** On success `get_all_rules` returns one decoded rule per row and
      nothing else. */
  lemma AllRulesAreTheRows(st: Store)
    ensures GetAllRules(st).Ok? ==>
              var rules := GetAllRules(st).value;
              && (forall k :: 0 <= k < |rules| ==> DecodedRowOf(rules[k], st.rules))
              && (forall i :: 0 <= i < |st.rules| ==> RowToRule(st.rules[i]).value in rules)
  {
    var rows := AllRowsNewestFirst(st);
    if CollectRules(rows).Ok? {
      DecodedRows(st.rules, rows, CollectRules(rows).value);
    }
  }

  /** A successful `get_all_rules` returns the rules newest first. */
  lemma AllRulesNewestFirst(st: Store)
    ensures GetAllRules(st).Ok? ==>
              var rules := GetAllRules(st).value;
              forall k, l :: 0 <= k < l < |rules| ==> rules[k].createdAt >= rules[l].createdAt
  {
    var rows := AllRowsNewestFirst(st);
    if CollectRules(rows).Ok? {
      DecodedKeepsOrder(rows, CollectRules(rows).value);
    }
  }

  /** Decoding keeps the creation times, so rules decoded from rows that are
      newest first are newest first too. */
  lemma DecodedKeepsOrder(rows: seq<RuleRow>, rules: seq<Rule>)
    requires |rules| == |rows| && forall k :: 0 <= k < |rows| ==> Ok(rules[k]) == RowToRule(rows[k])
    requires forall k, l :: 0 <= k < l < |rows| ==> rows[k].createdAt >= rows[l].createdAt
    ensures forall k, l :: 0 <= k < l < |rules| ==> rules[k].createdAt >= rules[l].createdAt
  {
    forall k, l | 0 <= k < l < |rules| ensures rules[k].createdAt >= rules[l].createdAt {
      assert Ok(rules[k]) == RowToRule(rows[k]) && Ok(rules[l]) == RowToRule(rows[l]);
    }
  }

  /** Sequences with equal multisets hold the same elements. */
  lemma SameElements<T>(a: seq<T>, b: seq<T>)
    requires multiset(a) == multiset(b)
    ensures forall i :: 0 <= i < |a| ==> a[i] in b
    ensures forall i :: 0 <= i < |b| ==> b[i] in a
  {
    forall i | 0 <= i < |a| ensures a[i] in b {
      assert a[i] in multiset(a);
    }
    forall i | 0 <= i < |b| ensures b[i] in a {
      assert b[i] in multiset(b);
    }
  }

  // ---------------------------------------------------------------------
  // Audit log

  /** `create_log`: appends one row under a fresh id. */
  function CreateLog(st: Store, e: LogEntry): (r: (Store, int))
    ensures r.0.logs == st.logs + [LogRow(r.1, e.timestamp, LevelText(e.level), e.category, e.message, e.details)]
    ensures RowToLog(r.0.logs[|st.logs|]) == e.(id := Some(r.1))
    ensures r.0.devices == st.devices && r.0.rules == st.rules
    ensures Valid(st) ==> Valid(r.0) && forall i :: 0 <= i < |st.logs| ==> st.logs[i].id != r.1
  {
    LevelRoundTrip(e.level);
    var row := LogRow(st.nextLogId, e.timestamp, LevelText(e.level), e.category, e.message, e.details);
    (st.(logs := st.logs + [row], nextLogId := st.nextLogId + 1), st.nextLogId)
  }

  function LogTime(row: LogRow): int {
    row.timestamp
  }

  function HasLevel(l: LogLevel): LogRow -> bool {
    (row: LogRow) => row.level == LevelText(l)
  }

  /** The rows `get_logs` selects before ordering: those whose level text is
      the filter's, or all rows without a filter. */
  function MatchingLogs(st: Store, level: Option<LogLevel>): (r: seq<LogRow>)
    ensures level.None? ==> r == st.logs
    ensures level.Some? ==> forall i :: 0 <= i < |r| ==> r[i].level == LevelText(level.value)
    ensures forall i :: 0 <= i < |r| ==> r[i] in st.logs
    ensures forall i :: 0 <= i < |st.logs| && (level.None? || st.logs[i].level == LevelText(level.value)) ==>
              st.logs[i] in r
  {
    match level
    case None => st.logs
    case Some(l) => Seqs.Filter(HasLevel(l), st.logs)
  }

  /** The rows `get_logs` returns: the matching rows ordered newest first,
      cut to the limit (100 when none is given; a negative limit is no limit
      in SQLite). */
  function SelectLogRows(st: Store, limit: Option<int>, level: Option<LogLevel>): (taken: seq<LogRow>)
    ensures var n := limit.GetOr(100); var m := |MatchingLogs(st, level)|;
            |taken| == if 0 <= n < m then n else m
    ensures forall i :: 0 <= i < |taken| ==> taken[i] in MatchingLogs(st, level)
    ensures forall i, j :: 0 <= i < j < |taken| ==> taken[i].timestamp >= taken[j].timestamp
    ensures forall row :: row in MatchingLogs(st, level) ==>
              row in taken || forall i :: 0 <= i < |taken| ==> row.timestamp <= taken[i].timestamp
  {
    var matching := MatchingLogs(st, level);
    var ordered := Seqs.SortDesc(matching, LogTime);
    var taken := Seqs.Limit(ordered, limit.GetOr(100));
    NewestKept(matching, ordered, taken);
    taken
  }

  /** The ordering and truncation steps of `get_logs`: what is kept comes
      from the matching rows, in order, and nothing newer than a kept row is
      cut off. */
  lemma NewestKept(matching: seq<LogRow>, ordered: seq<LogRow>, taken: seq<LogRow>)
    requires multiset(ordered) == multiset(matching) && Seqs.SortedDesc(ordered, LogTime)
    requires taken <= ordered
    ensures forall i :: 0 <= i < |taken| ==> taken[i] in matching
    ensures forall i, j :: 0 <= i < j < |taken| ==> taken[i].timestamp >= taken[j].timestamp
    ensures forall row :: row in matching ==>
              row in taken || forall i :: 0 <= i < |taken| ==> row.timestamp <= taken[i].timestamp
  {
    SameElements(matching, ordered);
    forall i | 0 <= i < |taken| ensures taken[i] in matching {
      assert taken[i] == ordered[i];
    }
    forall i, j | 0 <= i < j < |taken| ensures taken[i].timestamp >= taken[j].timestamp {
      assert LogTime(ordered[i]) >= LogTime(ordered[j]);
    }
    forall row | row in matching
      ensures row in taken || forall i :: 0 <= i < |taken| ==> row.timestamp <= taken[i].timestamp
    {
      var k :| 0 <= k < |ordered| && ordered[k] == row;
      if k < |taken| {
        assert taken[k] == row;
      } else {
        forall i | 0 <= i < |taken| ensures row.timestamp <= taken[i].timestamp {
          assert LogTime(ordered[i]) >= LogTime(ordered[k]);
        }
      }
    }
  }

  /** `e` is what reading back one of `rows` gives. */
  ghost predicate DecodedFrom(e: LogEntry, rows: seq<LogRow>) {
    exists j :: 0 <= j < |rows| && e == RowToLog(rows[j])
  }

  /** `get_logs`: the selected rows read back as entries. At most `limit`
      of them, all at the requested level, newest first, each one a stored
      row, and every matching row left out is no newer than any returned. */
  function GetLogs(st: Store, limit: Option<int>, level: Option<LogLevel>): (r: seq<LogEntry>)
    ensures var n := limit.GetOr(100); var m := |MatchingLogs(st, level)|;
            |r| == if 0 <= n < m then n else m
    ensures level.Some? ==> forall i :: 0 <= i < |r| ==> r[i].level == level.value
    ensures forall i, j :: 0 <= i < j < |r| ==> r[i].timestamp >= r[j].timestamp
    ensures forall i :: 0 <= i < |r| ==> DecodedFrom(r[i], st.logs)
    ensures forall row :: row in MatchingLogs(st, level) ==>
              RowToLog(row) in r || forall i :: 0 <= i < |r| ==> row.timestamp <= r[i].timestamp
  {
    var taken := SelectLogRows(st, limit, level);
    var r := seq(|taken|, i requires 0 <= i < |taken| => RowToLog(taken[i]));
    ReadBack(st, level, taken, r);
    r
  }

  /** Reading back the selected rows keeps their level, order, provenance
      and the newest-first cut. */
  lemma ReadBack(st: Store, level: Option<LogLevel>, taken: seq<LogRow>, r: seq<LogEntry>)
    requires forall i :: 0 <= i < |taken| ==> taken[i] in MatchingLogs(st, level)
    requires forall row :: row in MatchingLogs(st, level) ==>
               row in taken || forall i :: 0 <= i < |taken| ==> row.timestamp <= taken[i].timestamp
    requires |r| == |taken| && forall i :: 0 <= i < |r| ==> r[i] == RowToLog(taken[i])
    ensures level.Some? ==> forall i :: 0 <= i < |r| ==> r[i].level == level.value
    ensures forall i :: 0 <= i < |r| ==> DecodedFrom(r[i], st.logs)
    ensures forall row :: row in MatchingLogs(st, level) ==>
              RowToLog(row) in r || forall i :: 0 <= i < |r| ==> row.timestamp <= r[i].timestamp
  {
    if level.Some? {
      LevelRoundTrip(level.value);
    }
    forall i | 0 <= i < |r| ensures DecodedFrom(r[i], st.logs) {
      assert taken[i] in st.logs;
      var j :| 0 <= j < |st.logs| && st.logs[j] == taken[i];
    }
    forall row | row in MatchingLogs(st, level) && row in taken ensures RowToLog(row) in r {
      var k :| 0 <= k < |taken| && taken[k] == row;
      assert r[k] == RowToLog(row);
    }
  }

  /** A log row the retention sweep deletes: stamped strictly before the cutoff. */
  function Stale(cutoff: int): LogRow -> bool {
    (row: LogRow) => row.timestamp < cutoff
  }

  function Fresh(cutoff: int): LogRow -> bool {
    (row: LogRow) => row.timestamp >= cutoff
  }

  /** `clear_old_logs(days)`: deletes exactly the rows stamped strictly
      before `now - days`, keeps the rest in order, and reports how many
      went. A row stamped exactly at the cutoff stays. */
  function ClearOldLogs(st: Store, days: int, now: int): (r: (Store, int))
    ensures var cutoff := now - days * 86400;
            && (forall i :: 0 <= i < |r.0.logs| ==> r.0.logs[i].timestamp >= cutoff)
            && (forall i :: 0 <= i < |st.logs| && st.logs[i].timestamp >= cutoff ==> st.logs[i] in r.0.logs)
            && (forall i :: 0 <= i < |r.0.logs| ==> r.0.logs[i] in st.logs)
            && r.1 == Seqs.Count(Stale(cutoff), st.logs)
    ensures r.1 == |st.logs| - |r.0.logs|
    ensures r.0.devices == st.devices && r.0.rules == st.rules && r.0.nextLogId == st.nextLogId
    ensures Valid(st) ==> Valid(r.0)
  {
    var cutoff := now - days * 86400;
    var kept := Seqs.Filter(Fresh(cutoff), st.logs);
    Seqs.FilterSplitsCount(Stale(cutoff), Fresh(cutoff), st.logs);
    (st.(logs := kept), |st.logs| - |kept|)
  }
}
