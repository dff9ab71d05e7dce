# foxd presence tracking, rules and notifications in Dafny

foxd is a home-network presence daemon. It watches ARP, DHCP and kernel
neighbour events. It keeps a table of devices keyed by MAC address, each
Online, Offline or Unknown, and writes an audit log of arrivals and
departures. On every transition it runs the user's enabled rules. A rule
whose MAC filter admits the device and whose trigger matches the
transition sends a notification to its named channels: Telegram, ntfy or
a webhook. A periodic sweep disconnects devices not seen within the
timeout, and a daily task deletes audit rows older than the retention
period. The web console shows uptime, status colours and trigger names.

The model is a set of pure functions over immutable state:

- `Store` is the SQLite database. Devices live in a map keyed by MAC.
  Rules and log rows are kept in table order. Enumerations are stored as
  their display text and decoded on every read.
- `Dispatch` is the notifier. It holds the channel table and the delivery
  counter, and builds the request each channel kind posts.
- `Presence` is the event handlers of the daemon and its event loop.
- `Scanner` is the timeout sweep and the log cleanup.
- `Arp` is the decoding of ARP packets.
- `Console` is the display helpers of the web console.
- `Errors` and `Models` are the error type and the data model.
- `Clock` renders timestamps as the notification texts show them.
- `Text`, `Seqs` and `Wrappers` are support code.

The outside world is passed in as an `Env` value. It holds one clock
reading per call, whether audit-log writes reach the database, and an
oracle saying which channel deliveries succeed.

## Model

| member | source | states |
|---|---|---|
| Errors.Describe | daemon/src/errors.rs:8-44 | every error's display text ends with the text of the error it wraps, after a non-empty prefix |
| Errors.IntoResponse | daemon/src/errors.rs:64-88 | not-found answers 404 and HTTP failures 502; configuration, serialization, not-found and invalid-input errors are the client errors (4xx); not-found and invalid-input show their bare message, every other error its full display text; no details are ever attached |
| Models.DisplayTextsDistinct | daemon/src/models.rs:14-22 | the status, trigger and level display tables never render two variants alike |
| Models.StatusText | daemon/src/models.rs:14-22 | a status displays as a non-empty word of lowercase letters |
| Models.TriggerText | daemon/src/models.rs:47-56 | a trigger displays as a non-empty snake_case word |
| Models.LevelText | daemon/src/models.rs:244-253 | a level displays as a non-empty word of lowercase letters |
| Models.ChannelName | daemon/src/models.rs:99-108 | a Telegram channel is named "telegram_" and its chat id, an ntfy channel "ntfy_" and its topic, and a webhook "webhook_" and the last '/'-separated segment of its url |
| Models.ChannelNamesSeparateVariants | daemon/src/models.rs:99-108 | channels of different kinds can never share a dispatcher name, and a webhook's name never holds a '/' after its prefix |
| Text.LastSegment | daemon/src/models.rs:103-105 | the webhook name's segment is a suffix of the url with no '/' in it, preceded by a '/' whenever it is not the whole url |
| Text.EqIgnoreAsciiCaseIsEquivalence | daemon/src/daemon.rs:309-313 | the MAC-filter comparison is reflexive, symmetric and transitive |
| Store.DecodeStatus | daemon/src/db.rs:261-287 | a status text decodes to the status that displays as it, and any other text to Unknown |
| Store.StatusRoundTrip | daemon/src/db.rs:261-287 | decoding a stored status text gives back the status written |
| Store.DecodeTrigger | daemon/src/db.rs:398-433 | a trigger text decodes to the trigger that displays as it; any other text is a database decoding error |
| Store.TriggerRoundTrip | daemon/src/db.rs:398-433 | decoding a stored trigger text gives back the trigger written |
| Store.DecodeLevel | daemon/src/db.rs:543-565 | a level text decodes to the level that displays as it, and any other text to Info |
| Store.LevelRoundTrip | daemon/src/db.rs:543-565 | decoding a stored level text gives back the level written |
| Store.RowToDevice | daemon/src/db.rs:261-287 | every column of a device row is read back into the device under its MAC; the status text decodes to the status displaying as it, or to Unknown when none does |
| Store.RowToRule | daemon/src/db.rs:398-433 | a rule row decodes exactly when its trigger text is known and its channel list is valid JSON; a bad trigger is reported as the trigger decoding error before a bad channel list, which is reported as a serialization error with the parser's reason; a decoded rule carries the row's id, name, description, MAC filter, enabled flag, channel names and both timestamps, and the trigger its text names |
| Store.RuleRowRoundTrip | daemon/src/db.rs:289-309 | a rule written as `create_rule` writes its columns reads back as the same rule under the assigned id |
| Store.RowToLog | daemon/src/db.rs:543-565 | every column of a log row is read back into the entry; the level text decodes to the level displaying as it, or to Info when none does |
| Store.UpsertDevice | daemon/src/db.rs:140-170 | the MAC is present afterwards and no other device changes; ip, hostname, vendor, last-seen time and status are overwritten; a known MAC keeps its id, nickname and first-seen time; a new MAC takes the record's nickname and first-seen time and an id no stored device has; the id counters stay ahead of every stored id |
| Store.GetDeviceByMac | daemon/src/db.rs:172-188 | a device is found exactly when its MAC is stored, and it carries that MAC, the stored id, every stored column and the decoded status |
| Store.UpsertThenGet | daemon/src/db.rs:140-188 | reading back an upserted device gives the record written, except that a known MAC keeps its id, nickname and first-seen time |
| Store.GetDevicesByStatus | daemon/src/db.rs:206-223 | every stored device with the status text appears exactly once, decoded, and nothing else does; the list is ordered newest last-seen first |
| Store.UpdateDeviceStatus | daemon/src/db.rs:225-243 | only the named device changes, and only its status and last-seen time; an unknown MAC changes nothing; the id counters stay ahead of every stored id |
| Store.UpdateDeviceNickname | daemon/src/db.rs:245-259 | only the named device's nickname changes; an unknown MAC changes nothing; the id counters stay ahead of every stored id |
| Store.CollectRules | daemon/src/db.rs:334-361 | the rows decode as a whole exactly when each one decodes; on success rule i is row i decoded; on failure the error is that of the first row that fails |
| Store.EnabledRowsNewestFirst | daemon/src/db.rs:348-361 | the query reads every enabled row once and no disabled row, ordered by creation time, newest first |
| Store.GetEnabledRules | daemon/src/db.rs:348-361 | the call succeeds exactly when every enabled row decodes; disabled rows never cause a failure |
| Store.EnabledRulesOrdered | daemon/src/db.rs:348-361 | a successful call returns only enabled rules, newest first |
| Store.EnabledRulesAreTheEnabledRows | daemon/src/db.rs:348-361 | a successful call returns one decoded rule per enabled row, and every rule comes from an enabled row |
| Store.GetAllRules | daemon/src/db.rs:334-346 | the call succeeds exactly when every row decodes, and then returns one rule per row |
| Store.AllRowsNewestFirst | daemon/src/db.rs:334-346 | the query reads every row, and only stored rows, ordered by creation time, newest first |
| Store.AllRulesAreTheRows | daemon/src/db.rs:334-346 | a successful call returns a decoded rule for every row, and every rule it returns is some row decoded |
| Store.AllRulesNewestFirst | daemon/src/db.rs:334-346 | a successful call returns the rules newest first |
| Store.CreateLog | daemon/src/db.rs:470-490 | a log write appends one row that reads back as the entry written, under an id no stored row has, keeps the id counters ahead of every stored id, and leaves devices and rules alone |
| Store.MatchingLogs | daemon/src/db.rs:492-529 | with a level filter, exactly the rows of that level are selected; without one, every row is |
| Store.SelectLogRows | daemon/src/db.rs:492-529 | exactly the limit (100 by default) of the matching rows are returned, or all of them when there are fewer or the limit is negative; they are matching rows, newest first, and no matching row left out is newer than one kept |
| Store.GetLogs | daemon/src/db.rs:492-529 | as many entries as the limit (100 by default) allows of the matching rows, or all of them when there are fewer or the limit is negative; they are at the requested level, newest first, each a stored row read back; every matching row left out is no newer than any returned |
| Store.ClearOldLogs | daemon/src/db.rs:531-541 | exactly the rows stamped before now minus the retention days are deleted, the rest are kept, the count returned is the number deleted, and the id counters stay ahead of every stored id |
| Dispatch.BuildTable | daemon/src/notifier.rs:17-28 | the table holds exactly the names the channels use, and each name maps to the last channel carrying it |
| Dispatch.New | daemon/src/notifier.rs:17-28 | a new notifier knows each configured channel under its name, knows no other name, and has sent nothing |
| Dispatch.UpdateChannels | daemon/src/notifier.rs:30-36 | replacing the channels rebuilds the table as a new notifier would and forgets the names no longer listed; the delivery counter is kept |
| Dispatch.UpdateForgetsOldTable | daemon/src/notifier.rs:30-36 | after an update the table depends only on the new list |
| Dispatch.NotificationsSentCounts | daemon/src/notifier.rs:220-223 | the reported count is zero for a new notifier, grows with each send by exactly its successful deliveries, and is kept when the channels are replaced |
| Dispatch.LabelsDistinguishTriggers | daemon/src/notifier.rs:86-107 | the Telegram event labels and the ntfy titles each tell all four triggers apart, and they agree only on connect and disconnect |
| Dispatch.OrUnknown | daemon/src/notifier.rs:101-102 | a missing hostname or IP is shown as "Unknown", a present one as itself |
| Dispatch.TelegramTextShows | daemon/src/notifier.rs:86-107 | the Telegram alert shows the event label, the device's hostname and IP ("Unknown" when missing), its MAC, status and the time, each on its own bold-labelled line, and ends with the event's message |
| Dispatch.TelegramRequest | daemon/src/notifier.rs:78-126 | the post goes to the bot API url: the API prefix, the bot token, then "/sendMessage"; it sets no headers of its own; its JSON body has exactly the keys chat_id, parse_mode and text, carrying the chat id, "HTML" and the alert text |
| Dispatch.NtfyUrl | daemon/src/notifier.rs:135 | the topic url is the server url stripped of its trailing slashes, then one '/', then the topic |
| Dispatch.NtfyUrlIgnoresTrailingSlashes | daemon/src/notifier.rs:135 | adding a trailing '/' to the server url does not change the topic url |
| Dispatch.NtfyHeaders | daemon/src/notifier.rs:137-161 | title, priority and tags headers are always sent; an Authorization header carrying the bearer token is sent exactly when a token is configured |
| Dispatch.NtfyTextShows | daemon/src/notifier.rs:144-150 | the ntfy alert starts with the device's hostname ("Unknown" when missing) on its own line, and shows its MAC, its IP ("Unknown" when missing) and its status |
| Dispatch.NtfyRequest | daemon/src/notifier.rs:128-174 | the ntfy post goes to the topic url with the title, priority and tags headers, a bearer token exactly when one is configured, and the plain-text alert as its body |
| Dispatch.WebhookHeaders | daemon/src/notifier.rs:197-205 | for a header object, exactly the string-valued entries become headers, as Dispatch.StringHeaders lists them; any other configured value adds no header |
| Dispatch.StringHeaders | daemon/src/notifier.rs:197-205 | each header comes from a string-valued entry, and every such entry yields one |
| Dispatch.StringHeadersOfOne | daemon/src/notifier.rs:198-202 | a single entry yields its name and text as one header when its value is a string, and no header otherwise |
| Dispatch.StringHeadersSplit | daemon/src/notifier.rs:197-205 | the headers of a run of entries are those of its first part followed by those of the rest, so each string-valued entry is sent once, in the entries' order |
| Dispatch.DeviceJson | daemon/src/notifier.rs:185-191 | the webhook's device object has exactly the keys hostname, ip_address, last_seen, mac_address and status, in that order; it carries the MAC, status and last sighting, and the IP and hostname, each null when missing |
| Dispatch.WebhookPayload | daemon/src/notifier.rs:182-193 | the webhook document has exactly the keys device, event_type, message and timestamp, in that order, carrying the device object, the trigger text, the message and the event's time |
| Dispatch.WebhookRequest | daemon/src/notifier.rs:176-218 | the webhook post goes to the configured url with the configured string headers and the event's JSON document |
| Dispatch.RequestFor | daemon/src/notifier.rs:55-76 | only an ntfy channel posts plain text; a Telegram channel posts to the bot API without headers of its own, naming its chat; an ntfy channel posts to its topic url and authenticates exactly when a token is configured; a webhook posts to its own url with its configured headers, naming the event type |
| Dispatch.RequestShowsChannelKind | daemon/src/notifier.rs:55-218 | a Telegram body has a text and no event type; a webhook body has a device object and no chat id |
| Dispatch.Sweep | daemon/src/notifier.rs:38-53 | the counter gain is the number of listed names the table knows whose delivery succeeds |
| Dispatch.Send | daemon/src/notifier.rs:38-53 | a send never fails and never changes the table; the counter grows by the number of successful deliveries, counting every occurrence of a name |
| Dispatch.SendAttemptsKnownNames | daemon/src/notifier.rs:38-53 | exactly the names the table knows are attempted, in list order, each over its own channel; unknown names are skipped |
| Dispatch.SentCountsDeliveredAttempts | daemon/src/notifier.rs:38-53 | the counter gain equals the number of attempts that were delivered |
| Dispatch.SendSplits | daemon/src/notifier.rs:38-53 | sending to two lists joined is sending to the first and then to the second: a failed delivery never stops the names after it |
| Dispatch.DuplicatesAttemptedTwice | daemon/src/notifier.rs:38-53 | a name listed twice is attempted twice and, when delivery succeeds, counted twice |
| Clock.FormatUtc | daemon/src/notifier.rs:86-107 | the Telegram time text is 23 characters for years 0 to 9999, ends in " UTC", and each field reads back as the calendar field of the instant |
| Clock.FormatUtcInjective | daemon/src/notifier.rs:86-107 | two instants that render alike are the same instant |
| Clock.Rfc3339 | daemon/src/notifier.rs:182-193 | the webhook's timestamps are 20 characters with 'T' and 'Z' in place, and each field reads back as the calendar field of the instant |
| Clock.CivilRoundTrip | daemon/src/notifier.rs:86-107 | converting a valid date to its day number and back gives the same date, so the calendar reading is exact |
| Arp.FormatMac | daemon/src/daemon.rs:157-183 | the MAC text is 17 characters: six pairs of lowercase hex digits separated by ':' |
| Arp.ParseMac | daemon/src/daemon.rs:157-183 | a text reads as a hardware address exactly when it has that shape |
| Arp.MacRoundTrip | daemon/src/daemon.rs:157-183 | reading back the text of an address gives the address |
| Arp.FormatMacInjective | daemon/src/daemon.rs:157-183 | distinct hardware addresses get distinct texts |
| Arp.ParseArpPacket | daemon/src/daemon.rs:157-183 | opcode 1 yields a request, opcode 2 a reply, and any other opcode nothing; the event's MAC text reads back as the sender's hardware address and its IP is the IPv4 address of the sender's four protocol-address bytes |
| Presence.TriggerTable | daemon/src/daemon.rs:315-322 | on activity, new-device rules fire exactly for a new device, and connect or status-change rules fire exactly when the device was not Online; disconnect rules never fire on activity; on disconnection exactly disconnect and status-change rules fire |
| Presence.FilterIgnoresCase | daemon/src/daemon.rs:309-313 | a rule without a MAC filter admits every device; a filter admits its own MAC, and admits two MACs alike when they differ only in ASCII case |
| Presence.RuleEvent | daemon/src/daemon.rs:408-417 | the event carries the rule's trigger, the device and the time, and its message names the rule and ends with the MAC |
| Presence.NotifyRules | daemon/src/daemon.rs:308-327 | the rule loop never changes the channel table, and the counter grows by the deliveries its notifications record |
| Presence.NotifiedRulesAreTheFiringOnes | daemon/src/daemon.rs:308-327 | exactly the rules that admit the MAC and match the transition are notified, one notification each, in rule order |
| Presence.RunRules | daemon/src/daemon.rs:306-327 | the loop runs exactly when the enabled rules can be read; otherwise the call fails with nothing sent and nothing changed |
| Presence.EnabledRulesDependOnRulesOnly | daemon/src/db.rs:348-361 | the rule query depends on the rule table alone, so device and log writes before it cannot change it |
| Presence.WriteLog | daemon/src/daemon.rs:293 | a successful audit write appends the entry under an id no stored row has; a failed one is ignored and changes nothing; the id counters stay ahead of every stored id |
| Presence.HandleDeviceActivity | daemon/src/daemon.rs:249-330 | activity adds the device if absent and touches no other device, the rules or the channels; it succeeds exactly when the enabled rules can be read |
| Presence.ActivityRecordsDevice | daemon/src/daemon.rs:260-275 | after activity the device is Online, seen now, with the event's IP and no hostname or vendor; a known device keeps its id, nickname and first-seen time, and a new one is first seen now |
| Presence.ActivityLogs | daemon/src/daemon.rs:284-304 | an Info "device" row is written exactly when the device is new or was not Online and the write succeeds, with the discovery or connection message and the event's IP |
| Presence.ActivityNotifies | daemon/src/daemon.rs:306-327 | activity notifies exactly the enabled rules that fire for its transition, each about the upserted record |
| Presence.RepeatedActivityIsQuiet | daemon/src/daemon.rs:284-327 | a device already Online writes no audit row and raises no notification |
| Presence.ActivityIsRecorded | daemon/src/daemon.rs:260-275 | after activity the stored row records that sighting |
| Presence.ActivityAlreadyRecorded | daemon/src/daemon.rs:249-330 | activity the stored row already records changes nothing and sends nothing |
| Presence.ActivityIdempotent | daemon/src/daemon.rs:249-330 | the same sighting handled twice at the same moment: the second changes nothing, sends nothing and ends as the first did |
| Presence.HandleDeviceDisconnection | daemon/src/daemon.rs:332-373 | a disconnection removes no device and touches no other device, the rules or the channels |
| Presence.DisconnectionOfAbsentOrOffline | daemon/src/daemon.rs:333-334 | disconnecting an unknown or already Offline device does nothing and succeeds |
| Presence.DisconnectionMarksOffline | daemon/src/daemon.rs:332-373 | a device not Offline becomes Offline and seen now; a Warning row with its stored IP is written when the write succeeds; exactly the enabled rules admitting it with disconnect or status-change triggers are notified, about the stored record marked Offline |
| Presence.DisconnectionIdempotent | daemon/src/daemon.rs:332-373 | a second disconnection of the same device does nothing |
| Presence.DisconnectionLeavesOffline | daemon/src/daemon.rs:332-373 | a known device is Offline after its disconnection, whatever its status before |
| Presence.HandleEvent | daemon/src/daemon.rs:216-247 | an event never changes the rules or the channel table, and it fails only when the enabled rules cannot be read |
| Presence.HandleEventEffects | daemon/src/daemon.rs:216-247 | an event never removes a device and changes only its own; activity events leave the device Online and seen now; a removal leaves a known device Offline and does nothing for an unknown MAC |
| Presence.HandleEventKeepsValid | daemon/src/daemon.rs:216-247 | handling an event keeps the id counters ahead of every stored id |
| Presence.Drive | daemon/src/daemon.rs:206-214 | at most one error is reported per event, and none when no step can fail |
| Presence.DriveOne | daemon/src/daemon.rs:206-214 | the loop over one event ends in that event's state and notifications, reporting its error exactly when it failed |
| Presence.DriveSplits | daemon/src/daemon.rs:206-214 | running the loop over two batches joined is running it over the first and then the second from where it left off |
| Presence.ProcessEvents | daemon/src/daemon.rs:206-214 | processing events reports at most one error per event |
| Presence.ProcessEventsSplits | daemon/src/daemon.rs:206-214 | events after a failed one are still processed, from the state the earlier ones left |
| Presence.FailureDoesNotStopLoop | daemon/src/daemon.rs:206-214 | a failed event is reported and the loop continues with the next event from the state the failure left |
| Scanner.AsU64 | daemon/src/daemon.rs:394 | the cast keeps a non-negative elapsed time and turns a negative one into that value plus 2^64 |
| Scanner.TimedOutMeaning | daemon/src/daemon.rs:392-394 | for a non-negative elapsed time the test is "elapsed exceeds the timeout"; a negative elapsed time always times out |
| Scanner.ScanTimeouts | daemon/src/daemon.rs:391-405 | the sweep never adds or removes devices and never touches the rules or the channels |
| Scanner.ScanStopsAtError | daemon/src/daemon.rs:400-401 | a failed disconnection ends the sweep with its error, and later devices are not looked at |
| Scanner.ScanEffects | daemon/src/daemon.rs:391-405 | devices with no timed-out entry are untouched, and after a successful sweep every known device with one is Offline |
| Scanner.ScanNothingDue | daemon/src/daemon.rs:391-405 | a sweep with nothing timed out changes nothing and sends nothing |
| Scanner.DoomedAreExpired | daemon/src/daemon.rs:387-394 | over the Online query's rows, the devices with a timed-out entry are exactly the stored Online devices past the timeout |
| Scanner.CheckTimeouts | daemon/src/daemon.rs:387-406 | the sweep runs over the Online devices, newest first; devices not expired are untouched, and after success every expired device is Offline |
| Scanner.SecondScanQuiet | daemon/src/daemon.rs:387-406 | after a successful sweep, a second one at the same moment finds nothing to do |
| Scanner.SweptDevicesNotListed | daemon/src/daemon.rs:387-406 | after a successful sweep and before the next event, no device it found expired is listed by an Online query, whenever that query runs |
| Scanner.RetentionDays | daemon/src/daemon.rs:49 | the retention cast keeps the same 64 bits: values below 2^63 are unchanged, larger ones turn negative |
| Scanner.CleanupTick | daemon/src/daemon.rs:425-449 | disabled cleanup changes nothing; enabled cleanup keeps every row within the retention period and only stored rows, as many as were not past it, and never touches devices or rules |
| Scanner.WrappedRetentionPurges | daemon/src/daemon.rs:49 | a retention of 2^63 days or more wraps negative; while the cutoff it gives still has a four-digit year, cleanup deletes every row stamped up to now |
| Console.JsRem | console/src/lib/api.ts:237-238 | JavaScript's remainder is what the dividend leaves over the quotient rounded toward zero; it matches the mathematical one for non-negative dividends and otherwise lies in (-divisor, 0] |
| Console.TruncDiv | console/src/lib/api.ts:237-238 | the quotient rounded toward zero: the greatest multiple not above a non-negative dividend, the least not below a negative one |
| Console.FloorDiv | console/src/lib/api.ts:236-238 | `Math.floor(a / b)` is the greatest multiple count not above the quotient |
| Console.UptimeParts | console/src/lib/api.ts:235-238 | for a non-negative uptime the parts are whole days, hours below 24 and minutes below 60, falling short of the uptime by under a minute; a negative uptime gives no positive part |
| Console.FormatUptime | console/src/lib/api.ts:235-247 | the label always ends in an hours or minutes field |
| Console.FormatUptimeShape | console/src/lib/api.ts:235-247 | from one day on the label is whole days and the hours past them; from one hour on, whole hours and the minutes past them; below that, whole minutes; under a minute, "0m" |
| Console.UptimeReadsBack | console/src/lib/api.ts:235-247 | read back, the label gives a time at most the uptime, less than an hour short when it shows days and less than a minute short otherwise |
| Console.DaysLabelReads | console/src/lib/api.ts:241 | an "Nd Mh" label reads back as its days and hours |
| Console.HoursLabelReads | console/src/lib/api.ts:243 | an "Nh Mm" label reads back as its hours and minutes |
| Console.MinutesLabelReads | console/src/lib/api.ts:245 | an "Nm" label reads back as its minutes |
| Console.NegativeUptimeShowsMinutes | console/src/lib/api.ts:235-247 | a negative uptime always shows minutes alone: those of its part below an hour, rounded away from zero |
| Console.GetStatusColor | console/src/lib/api.ts:249-258 | "success" exactly for online, "danger" exactly for offline, "secondary" otherwise |
| Console.StatusColorFollowsDecoding | console/src/lib/api.ts:249-258 | the console colours a status text as the daemon decodes it: every text read as Unknown is shown as secondary |
| Console.GetTriggerTypeLabel | console/src/lib/api.ts:260-273 | an unknown trigger text is shown as it is |
| Console.TriggerLabels | console/src/lib/api.ts:262-269 | the four trigger texts are shown as "New Device", "Device Connected", "Device Disconnected" and "Status Change"; these agree with the daemon's ntfy titles for every trigger but the status change |
| Console.TriggerLabelsDistinct | console/src/lib/api.ts:260-273 | the four triggers get four different labels, none equal to a stored trigger text, and a text the daemon rejects is shown unchanged |

## Left out

- Packet capture (pcap), the netlink monitor, the bounded event channel, tokio task supervision and the `RwLock` around the notifier are left out; events reach the model as a sequence.
- The HTTP exchange of each channel is left out. Whether a delivery succeeds comes from the `Env` oracle. Request headers the HTTP client adds by itself (Content-Type) and JSON byte layout are not modelled.
- Dispatch.Send: the delivery counter is unbounded, so the wrap-around of the `AtomicU64` counter is not modelled.
- Each handler call reads the clock once (`Env.now`). The daemon reads it separately for the device, the log row and each notification. Timestamps are whole seconds.
- Database failures are modelled only where the daemon reacts to them. Audit writes may fail and are ignored. A rule row may fail to decode, through a bad trigger text or undecodable channel JSON. Other I/O failures of SQLite, the pool and migrations are not modelled.
- Rule, channel and metrics CRUD used only by the HTTP API (create/update/delete rule, channel table rows, counts) is left out, apart from the columns `create_rule` writes (Store.RuleToRow), and so are the API handlers, configuration loading and the console's API client.
- Clock.FormatUtc: fields are proved to read back only for years 0 to 9999. Other years get a sign and at least four digits, as chrono renders them.
- Store.ClearOldLogs: the cutoff is plain arithmetic. chrono's `Duration::days` and the subtraction from now panic when the period is out of chrono's range, which ends the cleanup task and with it `start` (daemon/src/daemon.rs:99-105); that panic is not modelled. A cutoff outside years 0 to 9999 is rendered with a sign, so SQLite's text comparison no longer orders it as the instant; the model compares instants. Scanner.WrappedRetentionPurges is stated only for cutoffs with a four-digit year for this reason.
- The text of an IPv6 address is taken as given; its compressed rendering is not modelled.
- Console.UptimeParts: the uptime is an integer number of seconds. Fractional seconds, which JavaScript would accept, are not modelled.
- Store.GetDevicesByStatus: rows with equal last-seen times come back in an order SQLite leaves unspecified, so the model leaves their order open.
- Presence.ProcessEvents: states only the error bound and the batch split. The effect of each event on the device table is stated per event by Presence.HandleEventEffects.
- Console.GetTriggerTypeLabel: its own contract states only the pass-through case; the four fixed labels are stated by Console.TriggerLabels.
- Console.FormatUptime: its own contract states only the final unit; the three shapes of the label are stated by Console.FormatUptimeShape.
- Dispatch.Send: repeated deliveries of one event over one channel are assumed to agree, because the oracle is a function of channel and event; the daemon makes an independent HTTP request each time, and either may fail.
- Presence.Drive: its own contract states the error bound and the error-free case; which events report errors is fixed by Presence.DriveOne and Presence.DriveSplits together.
