/** The notification dispatcher (daemon/src/notifier.rs): a table of channels
    keyed by their derived names, the request each channel kind sends, and a
    `send` that tries every named channel in turn and counts the deliveries
    that succeed. Whether a delivery succeeds is decided by an oracle: the
    HTTP exchange itself is outside the model. */
module Dispatch {
  import opened Wrappers
  import opened Models
  import opened Errors
  import Text
  import Seqs
  import Clock

  /** The channel table and the count of successful deliveries. */
  datatype Notifier = Notifier(channels: map<string, NotificationChannel>, sent: nat)

  /** Whether delivering `event` over `channel` succeeds: the HTTP status
      the remote end answers with, or a transport failure. */
  type Deliver = (NotificationChannel, NotificationEvent) -> bool

  // ---------------------------------------------------------------------
  // The channel table

  /** Channel `i` is the last one in `cs` carrying its name. */
  predicate LastNamed(cs: seq<NotificationChannel>, i: int)
    requires 0 <= i < |cs|
  {
    Seqs.LastWithKey(cs, i, ChannelName)
  }

  /** Some channel in `cs` is named `name`. */
  ghost predicate NameUsed(cs: seq<NotificationChannel>, name: string) {
    Seqs.KeyUsed(cs, name, ChannelName)
  }

  /** Inserting the channels in order under their names: the table holds
      exactly the names used, and each maps to the last channel carrying it,
      so a later channel replaces an earlier one of the same name. */
  function BuildTable(cs: seq<NotificationChannel>): (t: map<string, NotificationChannel>)
    ensures forall i :: 0 <= i < |cs| ==> ChannelName(cs[i]) in t
    ensures forall name :: name in t ==> NameUsed(cs, name)
    ensures forall i :: 0 <= i < |cs| && LastNamed(cs, i) ==> t[ChannelName(cs[i])] == cs[i]
  {
    Seqs.IndexBy(cs, ChannelName)
  }

  /** `Notifier::new`: the table built from the configured channels and a
      zero counter. */
  function New(cs: seq<NotificationChannel>): (n: Notifier)
    ensures n.sent == 0
    ensures forall i :: 0 <= i < |cs| && LastNamed(cs, i) ==>
              ChannelName(cs[i]) in n.channels && n.channels[ChannelName(cs[i])] == cs[i]
    ensures forall name :: name in n.channels ==> NameUsed(cs, name)
  {
    Notifier(BuildTable(cs), 0)
  }

  /** `update_channels`: the old table is dropped whole and rebuilt from the
      new list; names the new list does not use are gone, and the counter
      is untouched. */
  function UpdateChannels(n: Notifier, cs: seq<NotificationChannel>): (r: Notifier)
    ensures r.sent == n.sent
    ensures forall name :: !NameUsed(cs, name) ==> name !in r.channels
    ensures r.channels == New(cs).channels
  {
    n.(channels := BuildTable(cs))
  }

  /** Replacing the channels forgets everything about the previous table:
      two notifiers given the same list end up with the same table. */
  lemma UpdateForgetsOldTable(a: Notifier, b: Notifier, cs: seq<NotificationChannel>)
    ensures UpdateChannels(a, cs).channels == UpdateChannels(b, cs).channels
    ensures UpdateChannels(a, cs).sent == a.sent
  {
  }

  /** `get_notifications_sent`. */
  function NotificationsSent(n: Notifier): nat {
    n.sent
  }

  /** The reported count is the number of successful deliveries since the
      notifier was made: zero at first, grown by each send by exactly the
      deliveries that succeeded, and kept when the channels are replaced. */
  lemma NotificationsSentCounts(cs: seq<NotificationChannel>, n: Notifier, e: NotificationEvent,
                                names: seq<string>, deliver: Deliver)
    ensures NotificationsSent(New(cs)) == 0
    ensures NotificationsSent(Send(n, e, names, deliver).notifier)
              == NotificationsSent(n) + Seqs.Count(Succeeds(n.channels, e, deliver), names)
    ensures NotificationsSent(UpdateChannels(n, cs)) == NotificationsSent(n)
  {
  }

  // ---------------------------------------------------------------------
  // Requests

  datatype Header = Header(name: string, value: string)

  /** A request body: a JSON document, or plain text. */
  datatype Body = JsonBody(json: Json) | TextBody(text: string)

  /** One HTTP POST: where it goes, the headers the daemon sets on it, and
      its body. */
  datatype Request = Request(url: string, headers: seq<Header>, body: Body)

  /** The event line of a Telegram message. */
  function TelegramLabel(t: TriggerType): string {
    match t
    case DeviceConnected => "Device Connected"
    case DeviceDisconnected => "Device Disconnected"
    case NewDevice => "New Device Discovered"
    case DeviceStatusChange => "Device Status Changed"
  }

  /** The `Title` header of an ntfy message. */
  function NtfyTitle(t: TriggerType): string {
    match t
    case DeviceConnected => "Device Connected"
    case DeviceDisconnected => "Device Disconnected"
    case NewDevice => "New Device"
    case DeviceStatusChange => "Status Changed"
  }

  /** Both label tables tell every trigger apart, and they differ exactly
      on the new-device and status-change triggers. */
  lemma LabelsDistinguishTriggers(a: TriggerType, b: TriggerType)
    ensures TelegramLabel(a) == TelegramLabel(b) ==> a == b
    ensures NtfyTitle(a) == NtfyTitle(b) ==> a == b
    ensures TelegramLabel(a) == NtfyTitle(a) <==> a == DeviceConnected || a == DeviceDisconnected
  {
  }

  /** An optional text, or "Unknown" when it is missing (`unwrap_or`). */
  function OrUnknown(o: Option<string>): (s: string)
    ensures o.None? ==> s == "Unknown"
    ensures o.Some? ==> s == o.value
  {
    o.GetOr("Unknown")
  }

  const Fox: string := "\U{1F98A}"

  /** One `<b>label:</b> value` line of a Telegram message. */
  function TelegramLine(field: string, value: string): string {
    "<b>" + field + ":</b> " + value + "\n"
  }

  /** The lines of the HTML message a Telegram channel posts, up to the
      blank line before the event's message. */
  function TelegramLines(e: NotificationEvent): seq<string> {
    [Fox + " <b>Fox Daemon Alert</b>\n\n",
     TelegramLine("Event", TelegramLabel(e.eventType)),
     TelegramLine("Device", OrUnknown(e.device.hostname)),
     TelegramLine("IP", OrUnknown(e.device.ipAddress)),
     TelegramLine("MAC", e.device.macAddress),
     TelegramLine("Status", StatusText(e.device.status)),
     TelegramLine("Time", Clock.FormatUtc(e.timestamp)),
     "\n"]
  }

  /** The HTML message a Telegram channel posts. */
  function TelegramText(e: NotificationEvent): string {
    Text.Concat(TelegramLines(e)) + e.message
  }

  /** What a Telegram message shows: the event's label, the device's
      hostname and IP (or "Unknown" for a missing one), its MAC, status and
      the time, and it ends with the event's message. */
  lemma TelegramTextShows(e: NotificationEvent)
    ensures var s := TelegramText(e);
            && Text.Contains(s, TelegramLine("Event", TelegramLabel(e.eventType)))
            && (e.device.hostname.None? ==> Text.Contains(s, TelegramLine("Device", "Unknown")))
            && (e.device.hostname.Some? ==> Text.Contains(s, TelegramLine("Device", e.device.hostname.value)))
            && (e.device.ipAddress.None? ==> Text.Contains(s, TelegramLine("IP", "Unknown")))
            && (e.device.ipAddress.Some? ==> Text.Contains(s, TelegramLine("IP", e.device.ipAddress.value)))
            && Text.Contains(s, TelegramLine("MAC", e.device.macAddress))
            && Text.Contains(s, TelegramLine("Status", StatusText(e.device.status)))
            && Text.Contains(s, TelegramLine("Time", Clock.FormatUtc(e.timestamp)))
            && |e.message| <= |s| && s[|s| - |e.message|..] == e.message
  {
    TelegramTextShowsDevice(e);
    TelegramTextShowsState(e);
    TelegramTextEndsWithMessage(e);
  }

  /** The event and device-identity lines of a Telegram message. */
  lemma TelegramTextShowsDevice(e: NotificationEvent)
    ensures var s := TelegramText(e);
            && Text.Contains(s, TelegramLine("Event", TelegramLabel(e.eventType)))
            && Text.Contains(s, TelegramLine("Device", OrUnknown(e.device.hostname)))
            && Text.Contains(s, TelegramLine("IP", OrUnknown(e.device.ipAddress)))
  {
    var lines := TelegramLines(e);
    var head := Text.Concat(lines);
    Text.ConcatShows(lines, 1);
    Text.ContainsExtends(head, lines[1], e.message);
    Text.ConcatShows(lines, 2);
    Text.ContainsExtends(head, lines[2], e.message);
    Text.ConcatShows(lines, 3);
    Text.ContainsExtends(head, lines[3], e.message);
  }

  /** The MAC, status and time lines of a Telegram message. */
  lemma TelegramTextShowsState(e: NotificationEvent)
    ensures var s := TelegramText(e);
            && Text.Contains(s, TelegramLine("MAC", e.device.macAddress))
            && Text.Contains(s, TelegramLine("Status", StatusText(e.device.status)))
            && Text.Contains(s, TelegramLine("Time", Clock.FormatUtc(e.timestamp)))
  {
    var lines := TelegramLines(e);
    var head := Text.Concat(lines);
    Text.ConcatShows(lines, 4);
    Text.ContainsExtends(head, lines[4], e.message);
    Text.ConcatShows(lines, 5);
    Text.ContainsExtends(head, lines[5], e.message);
    Text.ConcatShows(lines, 6);
    Text.ContainsExtends(head, lines[6], e.message);
  }

  /** A Telegram message closes with the event's message. */
  lemma TelegramTextEndsWithMessage(e: NotificationEvent)
    ensures var s := TelegramText(e);
            |e.message| <= |s| && s[|s| - |e.message|..] == e.message
  {
    var head := Text.Concat(TelegramLines(e));
    assert (head + e.message)[|head|..] == e.message;
  }

  const TelegramApi: string := "https://api.telegram.org/bot"
  const SendMessage: string := "/sendMessage"

  /** The body of a Telegram `sendMessage` call; keys in sorted order. */
  function TelegramBody(chatId: string, text: string): (j: Json)
    ensures j.JObject? && Keys(j.entries) == ["chat_id", "parse_mode", "text"]
    ensures Lookup(j.entries, "chat_id") == Some(JString(chatId))
    ensures Lookup(j.entries, "parse_mode") == Some(JString("HTML"))
    ensures Lookup(j.entries, "text") == Some(JString(text))
  {
    var es := [("chat_id", JString(chatId)), ("parse_mode", JString("HTML")), ("text", JString(text))];
    assert Keys(es) == ["chat_id", "parse_mode", "text"] by {
      KeysOf3(es);
    }
    KeyedLookup(es, 0);
    KeyedLookup(es, 1);
    KeyedLookup(es, 2);
    JObject(es)
  }

  /** The url of a bot's `sendMessage` method. */
  function TelegramUrl(botToken: string): (url: string)
    ensures |url| == |TelegramApi| + |botToken| + |SendMessage|
    ensures url[..|TelegramApi|] == TelegramApi
    ensures url[|TelegramApi|..|TelegramApi| + |botToken|] == botToken
    ensures url[|TelegramApi| + |botToken|..] == SendMessage
  {
    var url := TelegramApi + botToken + SendMessage;
    assert url[|TelegramApi|..|TelegramApi| + |botToken|] == botToken;
    url
  }

  /** `send_telegram`: a JSON post to the bot's `sendMessage` method with
      the chat id, the HTML parse mode and the message text. */
  function TelegramRequest(botToken: string, chatId: string, e: NotificationEvent): (r: Request)
    ensures |r.url| == |TelegramApi| + |botToken| + |SendMessage|
    ensures r.url[..|TelegramApi|] == TelegramApi
    ensures r.url[|TelegramApi|..|TelegramApi| + |botToken|] == botToken
    ensures r.url[|TelegramApi| + |botToken|..] == SendMessage
    ensures r.headers == []
    ensures r.body.JsonBody? && r.body.json.JObject?
    ensures Keys(r.body.json.entries) == ["chat_id", "parse_mode", "text"]
    ensures var es := r.body.json.entries;
            && Lookup(es, "chat_id") == Some(JString(chatId))
            && Lookup(es, "parse_mode") == Some(JString("HTML"))
            && Lookup(es, "text") == Some(JString(TelegramText(e)))
  {
    Request(TelegramUrl(botToken), [], JsonBody(TelegramBody(chatId, TelegramText(e))))
  }

  /** The ntfy topic url: the server url with every trailing '/' removed,
      one '/', then the topic. */
  function NtfyUrl(serverUrl: string, topic: string): (url: string)
    ensures var base := Text.TrimEnd(serverUrl, '/');
            && base <= serverUrl
            && |url| == |base| + 1 + |topic|
            && url[..|base|] == base && url[|base|] == '/' && url[|base| + 1..] == topic
            && (|base| == 0 || url[|base| - 1] != '/')
  {
    Text.TrimEnd(serverUrl, '/') + "/" + topic
  }

  /** However many slashes the configured server url ends in, the topic url
      is the same. */
  lemma {:induction false} NtfyUrlIgnoresTrailingSlashes(serverUrl: string, topic: string)
    ensures NtfyUrl(serverUrl + "/", topic) == NtfyUrl(serverUrl, topic)
  {
    var s := serverUrl + "/";
    assert s[..|s| - 1] == serverUrl;
  }

  predicate HasHeader(hs: seq<Header>, name: string) {
    exists k :: 0 <= k < |hs| && hs[k].name == name
  }

  /** The headers of an ntfy post: title, priority and tags always, and a
      bearer token exactly when one is configured. */
  function NtfyHeaders(t: TriggerType, token: Option<string>): (hs: seq<Header>)
    ensures |hs| >= 3
    ensures hs[..3] == [Header("Title", NtfyTitle(t)), Header("Priority", "default"), Header("Tags", "fox,network")]
    ensures HasHeader(hs, "Authorization") <==> token.Some?
    ensures forall k :: 0 <= k < |hs| && hs[k].name == "Authorization" ==> hs[k].value == "Bearer " + token.value
  {
    var fixed := [Header("Title", NtfyTitle(t)), Header("Priority", "default"), Header("Tags", "fox,network")];
    match token
    case None => fixed
    case Some(tok) =>
      var hs := fixed + [Header("Authorization", "Bearer " + tok)];
      assert hs[3].name == "Authorization";
      hs
  }

  /** The plain-text body of an ntfy post, line by line. */
  function NtfyText(e: NotificationEvent): string {
    Text.Concat([OrUnknown(e.device.hostname),
                 "\nMAC: " + e.device.macAddress,
                 "\nIP: " + OrUnknown(e.device.ipAddress),
                 "\nStatus: " + StatusText(e.device.status)])
  }

  /** An ntfy body starts with the device's hostname ("Unknown" when it
      has none) on a line of its own, and shows its MAC, its IP (or
      "Unknown") and its status. */
  lemma NtfyTextShows(e: NotificationEvent)
    ensures var s := NtfyText(e);
            && (e.device.hostname.None? ==> "Unknown\n" <= s)
            && (e.device.hostname.Some? ==> e.device.hostname.value + "\n" <= s)
            && Text.Contains(s, "\nMAC: " + e.device.macAddress)
            && (e.device.ipAddress.None? ==> Text.Contains(s, "\nIP: Unknown"))
            && (e.device.ipAddress.Some? ==> Text.Contains(s, "\nIP: " + e.device.ipAddress.value))
            && Text.Contains(s, "\nStatus: " + StatusText(e.device.status))
  {
    var parts := [OrUnknown(e.device.hostname),
                  "\nMAC: " + e.device.macAddress,
                  "\nIP: " + OrUnknown(e.device.ipAddress),
                  "\nStatus: " + StatusText(e.device.status)];
    Text.ConcatStartsWith(parts);
    var first := parts[0] + parts[1];
    assert first[..|parts[0]| + 1] == parts[0] + "\n";
    if e.device.ipAddress.None? {
      assert parts[2] == "\nIP: Unknown";
    }
    Text.ConcatShows(parts, 1);
    Text.ConcatShows(parts, 2);
    Text.ConcatShows(parts, 3);
  }

  /** `send_ntfy`: a plain-text post to the topic url with the fixed
      headers and, when configured, the bearer token. */
  function NtfyRequest(serverUrl: string, topic: string, token: Option<string>, e: NotificationEvent): (r: Request)
    ensures r.url == NtfyUrl(serverUrl, topic)
    ensures r.headers == NtfyHeaders(e.eventType, token)
    ensures r.body == TextBody(NtfyText(e))
  {
    Request(NtfyUrl(serverUrl, topic), NtfyHeaders(e.eventType, token), TextBody(NtfyText(e)))
  }

  /** The header `entries[i]` contributes: present only for a string value. */
  ghost predicate FromStringEntry(entries: seq<(string, Json)>, h: Header) {
    exists i :: 0 <= i < |entries| && entries[i].1.JString? && h == Header(entries[i].0, entries[i].1.s)
  }

  /** The string-valued entries of a header object, in order; other values
      are skipped. */
  function StringHeaders(entries: seq<(string, Json)>): (hs: seq<Header>)
    ensures |hs| <= |entries|
    ensures forall k :: 0 <= k < |hs| ==> FromStringEntry(entries, hs[k])
    ensures forall i :: 0 <= i < |entries| && entries[i].1.JString? ==> Header(entries[i].0, entries[i].1.s) in hs
  {
    if |entries| == 0 then []
    else
      var rest := StringHeaders(entries[1..]);
      forall k | 0 <= k < |rest| ensures FromStringEntry(entries, rest[k]) {
        var i :| 0 <= i < |entries[1..]| && entries[1..][i].1.JString?
                 && rest[k] == Header(entries[1..][i].0, entries[1..][i].1.s);
        assert entries[i + 1] == entries[1..][i];
      }
      forall i | 1 <= i < |entries| && entries[i].1.JString? ensures Header(entries[i].0, entries[i].1.s) in rest {
        assert entries[1..][i - 1] == entries[i];
      }
      match entries[0].1
      case JString(v) =>
        var hs := [Header(entries[0].0, v)] + rest;
        assert forall k :: 1 <= k < |hs| ==> hs[k] == rest[k - 1];
        hs
      case _ => rest
  }

  /** One entry gives one header when its value is a string and none
      otherwise. */
  lemma StringHeadersOfOne(name: string, value: Json)
    ensures value.JString? ==> StringHeaders([(name, value)]) == [Header(name, value.s)]
    ensures !value.JString? ==> StringHeaders([(name, value)]) == []
  {
    assert [(name, value)][1..] == [];
  }

  /** The headers of two runs of entries are the first run's headers, then
      the second's. With StringHeadersOfOne this fixes the list exactly:
      one header per string-valued entry, in the entries' order, none
      repeated. */
  lemma {:induction false} StringHeadersSplit(a: seq<(string, Json)>, b: seq<(string, Json)>)
    ensures StringHeaders(a + b) == StringHeaders(a) + StringHeaders(b)
  {
    if |a| == 0 {
      assert a + b == b;
    } else {
      assert (a + b)[1..] == a[1..] + b;
      StringHeadersSplit(a[1..], b);
    }
  }

  /** The extra headers of a webhook post: the string-valued entries of an
      object; nothing for any other value or none. */
  function WebhookHeaders(headers: Option<Json>): (hs: seq<Header>)
    ensures !(headers.Some? && headers.value.JObject?) ==> hs == []
    ensures headers.Some? && headers.value.JObject? ==>
              var es := headers.value.entries;
              && (forall k :: 0 <= k < |hs| ==> FromStringEntry(es, hs[k]))
              && (forall i :: 0 <= i < |es| && es[i].1.JString? ==> Header(es[i].0, es[i].1.s) in hs)
              && hs == StringHeaders(es)
  {
    match headers
    case Some(JObject(es)) => StringHeaders(es)
    case _ => []
  }

  /** An optional text as serde writes it: the string, or null. */
  function OptionalText(o: Option<string>): (j: Json)
    ensures o.None? ==> j == JNull
    ensures o.Some? ==> j == JString(o.value)
  {
    match o
    case Some(s) => JString(s)
    case None => JNull
  }

  /** The device object of a webhook payload, from its field values; keys
      in sorted order. */
  function DeviceObject(hostname: Json, ipAddress: Json, lastSeen: string, mac: string, status: string): (j: Json)
    ensures j.JObject? && Keys(j.entries) == ["hostname", "ip_address", "last_seen", "mac_address", "status"]
    ensures Lookup(j.entries, "hostname") == Some(hostname)
    ensures Lookup(j.entries, "ip_address") == Some(ipAddress)
    ensures Lookup(j.entries, "last_seen") == Some(JString(lastSeen))
    ensures Lookup(j.entries, "mac_address") == Some(JString(mac))
    ensures Lookup(j.entries, "status") == Some(JString(status))
  {
    var es := [("hostname", hostname), ("ip_address", ipAddress), ("last_seen", JString(lastSeen)),
               ("mac_address", JString(mac)), ("status", JString(status))];
    assert Keys(es) == ["hostname", "ip_address", "last_seen", "mac_address", "status"] by {
      KeysOf5(es);
    }
    KeyedLookup(es, 0);
    KeyedLookup(es, 1);
    KeyedLookup(es, 2);
    KeyedLookup(es, 3);
    KeyedLookup(es, 4);
    JObject(es)
  }

  /** The device object a webhook receives: the device's MAC, status and
      last sighting, and its IP and hostname, each null when missing. */
  function DeviceJson(d: Device): (j: Json)
    ensures j.JObject? && Keys(j.entries) == ["hostname", "ip_address", "last_seen", "mac_address", "status"]
    ensures Lookup(j.entries, "mac_address") == Some(JString(d.macAddress))
    ensures Lookup(j.entries, "status") == Some(JString(StatusText(d.status)))
    ensures Lookup(j.entries, "last_seen") == Some(JString(Clock.Rfc3339(d.lastSeen)))
    ensures d.ipAddress.None? ==> Lookup(j.entries, "ip_address") == Some(JNull)
    ensures d.ipAddress.Some? ==> Lookup(j.entries, "ip_address") == Some(JString(d.ipAddress.value))
    ensures d.hostname.None? ==> Lookup(j.entries, "hostname") == Some(JNull)
    ensures d.hostname.Some? ==> Lookup(j.entries, "hostname") == Some(JString(d.hostname.value))
  {
    DeviceObject(OptionalText(d.hostname), OptionalText(d.ipAddress), Clock.Rfc3339(d.lastSeen),
                 d.macAddress, StatusText(d.status))
  }

  /** A webhook document from its field values; keys in sorted order. */
  function PayloadObject(device: Json, eventType: string, message: string, timestamp: string): (p: Json)
    ensures p.JObject? && Keys(p.entries) == ["device", "event_type", "message", "timestamp"]
    ensures Lookup(p.entries, "device") == Some(device)
    ensures Lookup(p.entries, "event_type") == Some(JString(eventType))
    ensures Lookup(p.entries, "message") == Some(JString(message))
    ensures Lookup(p.entries, "timestamp") == Some(JString(timestamp))
  {
    var es := [("device", device), ("event_type", JString(eventType)), ("message", JString(message)),
               ("timestamp", JString(timestamp))];
    assert Keys(es) == ["device", "event_type", "message", "timestamp"] by {
      KeysOf4(es);
    }
    KeyedLookup(es, 0);
    KeyedLookup(es, 1);
    KeyedLookup(es, 2);
    KeyedLookup(es, 3);
    JObject(es)
  }

  /** The JSON document a webhook receives: the event's time, trigger text
      and message, and the device object. */
  function WebhookPayload(e: NotificationEvent): (p: Json)
    ensures p.JObject? && Keys(p.entries) == ["device", "event_type", "message", "timestamp"]
    ensures Lookup(p.entries, "device") == Some(DeviceJson(e.device))
    ensures Lookup(p.entries, "event_type") == Some(JString(TriggerText(e.eventType)))
    ensures Lookup(p.entries, "message") == Some(JString(e.message))
    ensures Lookup(p.entries, "timestamp") == Some(JString(Clock.Rfc3339(e.timestamp)))
  {
    PayloadObject(DeviceJson(e.device), TriggerText(e.eventType), e.message, Clock.Rfc3339(e.timestamp))
  }

  /** `send_webhook`: the payload posted to the configured url with the
      configured string headers. */
  function WebhookRequest(url: string, headers: Option<Json>, e: NotificationEvent): (r: Request)
    ensures r.url == url
    ensures r.headers == WebhookHeaders(headers)
    ensures r.body == JsonBody(WebhookPayload(e))
  {
    Request(url, WebhookHeaders(headers), JsonBody(WebhookPayload(e)))
  }

  /** `send_to_channel`: what each kind of channel posts. Only ntfy posts
      plain text; Telegram posts to its bot API without headers of its own;
      ntfy authenticates exactly when a token is configured; a webhook
      carries its configured headers to its own url. */
  function RequestFor(c: NotificationChannel, e: NotificationEvent): (r: Request)
    ensures r.body.TextBody? <==> c.Ntfy?
    ensures c.Telegram? ==> |TelegramApi| <= |r.url| && r.url[..|TelegramApi|] == TelegramApi && r.headers == []
                            && r.body.JsonBody? && r.body.json.JObject?
                            && Lookup(r.body.json.entries, "chat_id") == Some(JString(c.chatId))
    ensures c.Ntfy? ==> r.url == NtfyUrl(c.serverUrl, c.topic)
                        && (HasHeader(r.headers, "Authorization") <==> c.token.Some?)
    ensures c.Webhook? ==> r.url == c.url && r.headers == WebhookHeaders(c.headers)
                           && r.body.JsonBody? && r.body.json.JObject?
                           && Lookup(r.body.json.entries, "event_type") == Some(JString(TriggerText(e.eventType)))
  {
    match c
    case Telegram(token, chat) => TelegramRequest(token, chat, e)
    case Ntfy(server, topic, token) => NtfyRequest(server, topic, token, e)
    case Webhook(url, headers) => WebhookRequest(url, headers, e)
  }

  /** The kind of a channel can be read off the keys of its JSON body: a
      Telegram body names a chat and no event type, a webhook body names an
      event type and no chat. */
  lemma RequestShowsChannelKind(c: NotificationChannel, e: NotificationEvent)
    ensures c.Telegram? ==> Lookup(RequestFor(c, e).body.json.entries, "event_type").None?
                            && Lookup(RequestFor(c, e).body.json.entries, "text").Some?
    ensures c.Webhook? ==> Lookup(RequestFor(c, e).body.json.entries, "chat_id").None?
                           && Lookup(RequestFor(c, e).body.json.entries, "device").Some?
  {
    match c
    case Telegram(token, chat) => TelegramBodyHasNoEventType(TelegramRequest(token, chat, e));
    case Webhook(url, headers) => WebhookBodyHasNoChat(WebhookPayload(e));
    case Ntfy(_, _, _) =>
  }

  lemma TelegramBodyHasNoEventType(r: Request)
    requires r.body.JsonBody? && r.body.json.JObject?
    requires Keys(r.body.json.entries) == ["chat_id", "parse_mode", "text"]
    ensures Lookup(r.body.json.entries, "event_type").None?
  {
    LookupMisses(r.body.json.entries, "event_type");
  }

  lemma WebhookBodyHasNoChat(payload: Json)
    requires payload.JObject?
    requires Keys(payload.entries) == ["device", "event_type", "message", "timestamp"]
    ensures Lookup(payload.entries, "chat_id").None?
  {
    LookupMisses(payload.entries, "chat_id");
  }

  // ---------------------------------------------------------------------
  // Sending

  /** What happened for one name of a rule's list that the table knows: the
      channel it was sent over (which posts `RequestFor(channel, event)`)
      and whether the delivery succeeded. */
  datatype Attempt = Attempt(name: string, channel: NotificationChannel, delivered: bool)

  datatype SendOutcome = SendOutcome(notifier: Notifier, result: Result<(), DaemonError>, attempts: seq<Attempt>)

  function Known(t: map<string, NotificationChannel>): string -> bool {
    name => name in t
  }

  function Succeeds(t: map<string, NotificationChannel>, e: NotificationEvent, deliver: Deliver): string -> bool {
    name => name in t && deliver(t[name], e)
  }

  function AttemptOn(t: map<string, NotificationChannel>, e: NotificationEvent, deliver: Deliver, name: string): Attempt
    requires name in t
  {
    Attempt(name, t[name], deliver(t[name], e))
  }

  /** The loop of `send` over the names: for each name the table knows, one
      attempt; the number of attempts that were delivered is the gain. */
  function Sweep(t: map<string, NotificationChannel>, e: NotificationEvent, names: seq<string>, deliver: Deliver)
    : (r: (nat, seq<Attempt>))
    ensures r.0 == Seqs.Count(Succeeds(t, e, deliver), names)
    decreases |names|
  {
    if |names| == 0 then (0, [])
    else
      var name := names[0];
      var rest := Sweep(t, e, names[1..], deliver);
      if name in t then
        (rest.0 + (if deliver(t[name], e) then 1 else 0), [AttemptOn(t, e, deliver, name)] + rest.1)
      else rest
  }

  /** `send`: every name in turn, once per occurrence. A name the table
      does not know is skipped; a failed delivery is logged and skipped;
      neither stops the names after it. The call always succeeds, and the
      counter grows by the number of deliveries that succeeded. */
  function Send(n: Notifier, e: NotificationEvent, names: seq<string>, deliver: Deliver): (r: SendOutcome)
    ensures r.result == Ok(())
    ensures r.notifier.channels == n.channels
    ensures r.notifier.sent == n.sent + Seqs.Count(Succeeds(n.channels, e, deliver), names)
  {
    var (gained, attempts) := Sweep(n.channels, e, names, deliver);
    SendOutcome(n.(sent := n.sent + gained), Ok(()), attempts)
  }

  /** `send` attempts exactly the names the table knows, in list order,
      each over the channel the table holds for it. */
  lemma {:induction false} SendAttemptsKnownNames(t: map<string, NotificationChannel>, e: NotificationEvent,
                                                  names: seq<string>, deliver: Deliver)
    ensures var attempts := Sweep(t, e, names, deliver).1;
            var known := Seqs.Filter(Known(t), names);
            && |attempts| == |known|
            && forall k :: 0 <= k < |known| ==> attempts[k] == AttemptOn(t, e, deliver, known[k])
    decreases |names|
  {
    if |names| > 0 {
      SendAttemptsKnownNames(t, e, names[1..], deliver);
      Seqs.FilterCons(Known(t), names);
    }
  }

  /** The counter grows by exactly the number of attempts that were
      delivered. */
  lemma {:induction false} SentCountsDeliveredAttempts(t: map<string, NotificationChannel>, e: NotificationEvent,
                                                       names: seq<string>, deliver: Deliver)
    ensures var r := Sweep(t, e, names, deliver);
            r.0 == Seqs.Count(Delivered, r.1)
    decreases |names|
  {
    if |names| > 0 {
      var name := names[0];
      SentCountsDeliveredAttempts(t, e, names[1..], deliver);
      if name in t {
        var rest := Sweep(t, e, names[1..], deliver);
        Seqs.FilterAppend(Delivered, [AttemptOn(t, e, deliver, name)], rest.1);
      }
    }
  }

  function Delivered(a: Attempt): bool {
    a.delivered
  }

  /** Sending to `a + b` is sending to `a` and then to `b` from where `a`
      left off: what happens for one name never depends on the outcome for
      another. */
  lemma SendSplits(n: Notifier, e: NotificationEvent, a: seq<string>, b: seq<string>, deliver: Deliver)
    ensures var ra := Send(n, e, a, deliver);
            var rb := Send(ra.notifier, e, b, deliver);
            Send(n, e, a + b, deliver) == SendOutcome(rb.notifier, Ok(()), ra.attempts + rb.attempts)
  {
    Seqs.FilterAppend(Succeeds(n.channels, e, deliver), a, b);
    SweepSplits(n.channels, e, a, b, deliver);
  }

  lemma {:induction false} SweepSplits(t: map<string, NotificationChannel>, e: NotificationEvent,
                                       a: seq<string>, b: seq<string>, deliver: Deliver)
    ensures Sweep(t, e, a + b, deliver).1 == Sweep(t, e, a, deliver).1 + Sweep(t, e, b, deliver).1
    decreases |a|
  {
    if |a| == 0 {
      assert a + b == b;
    } else {
      assert (a + b)[0] == a[0] && (a + b)[1..] == a[1..] + b;
      SweepSplits(t, e, a[1..], b, deliver);
    }
  }

  /** A name listed twice is attempted twice: duplicates are not merged. */
  lemma DuplicatesAttemptedTwice(n: Notifier, e: NotificationEvent, name: string, deliver: Deliver)
    requires name in n.channels
    ensures |Send(n, e, [name, name], deliver).attempts| == 2
    ensures deliver(n.channels[name], e) ==> Send(n, e, [name, name], deliver).notifier.sent == n.sent + 2
  {
    var t := n.channels;
    assert [name, name][1..] == [name] && [name][1..] == [];
    assert Sweep(t, e, [name], deliver).1 == [AttemptOn(t, e, deliver, name)];
  }
}
