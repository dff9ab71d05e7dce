/** The daemon's data model (daemon/src/models.rs): device presence, rules,
    audit log entries, notification channels and the transient network and
    notification events. Timestamps are whole seconds since the Unix epoch. */
module Models {
  import opened Wrappers
  import Text

  type byte = x: int | 0 <= x < 256

  datatype DeviceStatus = Online | Offline | Unknown

  /** Lowercase ASCII letters, with '_' between words. */
  predicate IsSnakeCase(s: string) {
    |s| > 0 && forall i :: 0 <= i < |s| ==> 'a' <= s[i] <= 'z' || s[i] == '_'
  }

  /** The `Display` text of a status, which is also what the store keeps:
      one lowercase word. */
  function StatusText(s: DeviceStatus): (t: string)
    ensures IsSnakeCase(t) && '_' !in t
  {
    match s
    case Online => "online"
    case Offline => "offline"
    case Unknown => "unknown"
  }

  datatype TriggerType = DeviceConnected | DeviceDisconnected | NewDevice | DeviceStatusChange

  /** The `Display` text of a trigger, as serde's snake_case names it. */
  function TriggerText(t: TriggerType): (s: string)
    ensures IsSnakeCase(s)
  {
    match t
    case DeviceConnected => "device_connected"
    case DeviceDisconnected => "device_disconnected"
    case NewDevice => "new_device"
    case DeviceStatusChange => "device_status_change"
  }

  datatype LogLevel = Info | Warning | Error | Debug

  /** The `Display` text of a level: one lowercase word. */
  function LevelText(l: LogLevel): (t: string)
    ensures IsSnakeCase(t) && '_' !in t
  {
    match l
    case Info => "info"
    case Warning => "warning"
    case Error => "error"
    case Debug => "debug"
  }

  /** The three display tables are injective: distinct variants never render
      alike, so the text columns of the store identify the variant. */
  lemma DisplayTextsDistinct(s1: DeviceStatus, s2: DeviceStatus, t1: TriggerType, t2: TriggerType,
                             l1: LogLevel, l2: LogLevel)
    ensures StatusText(s1) == StatusText(s2) ==> s1 == s2
    ensures TriggerText(t1) == TriggerText(t2) ==> t1 == t2
    ensures LevelText(l1) == LevelText(l2) ==> l1 == l2
  {
  }

  /** An IP address. Version 4 addresses render in dotted decimal; the text
      of a version 6 address is taken as given (its compressed rendering is
      not part of this model). */
  datatype IpAddr = V4(a: byte, b: byte, c: byte, d: byte) | V6(text: string)

  function IpText(ip: IpAddr): string {
    match ip
    case V4(a, b, c, d) =>
      Text.NatToDecimal(a) + "." + Text.NatToDecimal(b) + "." + Text.NatToDecimal(c) + "." + Text.NatToDecimal(d)
    case V6(t) => t
  }

  function OptionalIpText(ip: Option<IpAddr>): Option<string> {
    match ip
    case Some(i) => Some(IpText(i))
    case None => None
  }

  datatype Device = Device(
    id: Option<int>,
    macAddress: string,
    ipAddress: Option<string>,
    hostname: Option<string>,
    nickname: Option<string>,
    vendor: Option<string>,
    firstSeen: int,
    lastSeen: int,
    status: DeviceStatus)

  datatype Rule = Rule(
    id: Option<int>,
    name: string,
    description: Option<string>,
    triggerType: TriggerType,
    macFilter: Option<string>,
    enabled: bool,
    notificationChannels: seq<string>,
    createdAt: int,
    updatedAt: int)

  datatype LogEntry = LogEntry(
    id: Option<int>,
    timestamp: int,
    level: LogLevel,
    category: string,
    message: string,
    details: Option<string>)

  /** A JSON value (`serde_json::Value`); object entries are listed in the
      order the map iterates them. Numbers are taken to be integers. */
  datatype Json =
    | JNull
    | JBool(b: bool)
    | JNumber(n: int)
    | JString(s: string)
    | JArray(items: seq<Json>)
    | JObject(entries: seq<(string, Json)>)

  /** The value an object's entries hold under `key` (the first such
      entry), if any. */
  function Lookup(entries: seq<(string, Json)>, key: string): Option<Json> {
    if |entries| == 0 then None
    else if entries[0].0 == key then Some(entries[0].1)
    else Lookup(entries[1..], key)
  }

  /** The keys of an object's entries, in order. */
  function Keys(entries: seq<(string, Json)>): (ks: seq<string>)
    ensures |ks| == |entries|
    ensures forall j :: 0 <= j < |entries| ==> ks[j] == entries[j].0
  {
    seq(|entries|, j requires 0 <= j < |entries| => entries[j].0)
  }

  /** The keys of a three-, four- or five-entry object, spelled out. */
  lemma KeysOf3(es: seq<(string, Json)>)
    requires |es| == 3
    ensures Keys(es) == [es[0].0, es[1].0, es[2].0]
  {
  }

  lemma KeysOf4(es: seq<(string, Json)>)
    requires |es| == 4
    ensures Keys(es) == [es[0].0, es[1].0, es[2].0, es[3].0]
  {
  }

  lemma KeysOf5(es: seq<(string, Json)>)
    requires |es| == 5
    ensures Keys(es) == [es[0].0, es[1].0, es[2].0, es[3].0, es[4].0]
  {
  }

  /** Lookup returns the entry at `i` when no earlier entry has its key. */
  lemma {:induction false} LookupFinds(entries: seq<(string, Json)>, i: nat, key: string)
    requires i < |entries| && entries[i].0 == key
    requires forall j :: 0 <= j < i ==> entries[j].0 != key
    ensures Lookup(entries, key) == Some(entries[i].1)
  {
    if i > 0 {
      LookupFinds(entries[1..], i - 1, key);
    }
  }

  /** Lookup by the key at `i` returns the entry at `i` when no earlier
      entry has that key. */
  lemma KeyedLookup(entries: seq<(string, Json)>, i: nat)
    requires i < |entries|
    requires forall j :: 0 <= j < i ==> Keys(entries)[j] != Keys(entries)[i]
    ensures Lookup(entries, Keys(entries)[i]) == Some(entries[i].1)
  {
    forall j | 0 <= j < i ensures entries[j].0 != entries[i].0 {
      assert Keys(entries)[j] != Keys(entries)[i];
    }
    LookupFinds(entries, i, entries[i].0);
  }

  /** Lookup finds nothing when no entry has the key. */
  lemma {:induction false} LookupMisses(entries: seq<(string, Json)>, key: string)
    requires key !in Keys(entries)
    ensures Lookup(entries, key).None?
  {
    if |entries| > 0 {
      assert Keys(entries) == [entries[0].0] + Keys(entries[1..]);
      LookupMisses(entries[1..], key);
    }
  }

  datatype NotificationChannel =
    | Telegram(botToken: string, chatId: string)
    | Ntfy(serverUrl: string, topic: string, token: Option<string>)
    | Webhook(url: string, headers: Option<Json>)

  /** The name a channel is registered under in the dispatcher. A webhook is
      named after the last '/'-separated segment of its url; since splitting
      always yields at least one segment, the source's "unknown" fallback
      never applies. */
  function ChannelName(c: NotificationChannel): (name: string)
    ensures c.Telegram? ==> |name| >= 9 && name[..9] == "telegram_" && name[9..] == c.chatId
    ensures c.Ntfy? ==> |name| >= 5 && name[..5] == "ntfy_" && name[5..] == c.topic
    ensures c.Webhook? ==> 8 <= |name| <= 8 + |c.url| && name[..8] == "webhook_" && '/' !in name[8..]
                           && name[8..] == c.url[|c.url| - (|name| - 8)..]
                           && (|name| - 8 < |c.url| ==> c.url[|c.url| - (|name| - 8) - 1] == '/')
  {
    match c
    case Telegram(_, chatId) => "telegram_" + chatId
    case Ntfy(_, topic, _) => "ntfy_" + topic
    case Webhook(url, _) => "webhook_" + Text.LastSegment(url, '/')
  }

  /** Channels of different kinds never share a name: the three prefixes
      already differ in their first character. A webhook's name never holds
      a '/' after its prefix. */
  lemma ChannelNamesSeparateVariants(a: NotificationChannel, b: NotificationChannel)
    ensures ChannelName(a) == ChannelName(b) ==>
              (a.Telegram? <==> b.Telegram?) && (a.Ntfy? <==> b.Ntfy?) && (a.Webhook? <==> b.Webhook?)
    ensures a.Webhook? ==> '/' !in ChannelName(a)[8..]
  {
    if ChannelName(a) == ChannelName(b) {
      assert ChannelName(a)[0] == ChannelName(b)[0];
    }
  }

  /** A notification about one device, raised by one rule. */
  datatype NotificationEvent = NotificationEvent(
    timestamp: int,
    eventType: TriggerType,
    device: Device,
    message: string)

  /** A decoded network observation on its way to the presence tracker. */
  datatype NetworkEvent =
    | ArpRequest(sourceMac: string, sourceIp: IpAddr)
    | ArpReply(sourceMac: string, sourceIp: IpAddr)
    | DhcpRequest(clientMac: string, requestedIp: Option<IpAddr>)
    | NeighborAdded(mac: string, ip: IpAddr, interfaceIndex: nat)
    | NeighborRemoved(mac: string, ip: IpAddr, interfaceIndex: nat)
    | NeighborUpdated(mac: string, ip: IpAddr, interfaceIndex: nat)
}
