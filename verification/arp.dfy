/** Decoding of captured ARP packets into network events
    (`parse_arp_packet` in daemon/src/daemon.rs): the sender's hardware
    address becomes six lowercase two-digit hex groups joined by ':', its
    protocol address becomes an IPv4 address, and the opcode picks the
    event. */
module Arp {
  import opened Wrappers
  import opened Models
  import Text

  /** A 48-bit hardware address. */
  type MacBytes = s: seq<byte> | |s| == 6 witness [0, 0, 0, 0, 0, 0]

  /** A 32-bit protocol address. */
  type Ipv4Bytes = s: seq<byte> | |s| == 4 witness [0, 0, 0, 0]

  /** The fields of an ARP packet the daemon reads. */
  datatype ArpPacket = ArpPacket(operation: nat, senderHw: MacBytes, senderProto: Ipv4Bytes)

  /** The IPv4 address of four protocol-address bytes, in wire order. */
  function SenderIp(p: Ipv4Bytes): IpAddr {
    V4(p[0], p[1], p[2], p[3])
  }

  /** `{:02x}`: a byte as two lowercase hex digits. */
  function Hex2(b: byte): (s: string)
    ensures |s| == 2 && Text.IsLowerHexDigit(s[0]) && Text.IsLowerHexDigit(s[1])
    ensures Text.HexValue(s[0]) * 16 + Text.HexValue(s[1]) == b
  {
    var s := [Text.HexDigit(b / 16), Text.HexDigit(b % 16)];
    HexDigitValue(b / 16);
    HexDigitValue(b % 16);
    s
  }

  lemma HexDigitValue(d: nat)
    requires d < 16
    ensures Text.IsLowerHexDigit(Text.HexDigit(d)) && Text.HexValue(Text.HexDigit(d)) == d
  {
  }

  /** The text of a hardware address: 17 characters, a ':' after every
      second one, lowercase hex digits elsewhere. */
  function FormatMac(m: MacBytes): (s: string)
    ensures |s| == 17
    ensures forall k :: 0 <= k < 5 ==> s[3 * k + 2] == ':'
    ensures forall k :: 0 <= k < 6 ==> Text.IsLowerHexDigit(s[3 * k]) && Text.IsLowerHexDigit(s[3 * k + 1])
  {
    seq(17, i requires 0 <= i < 17 => if i % 3 == 2 then ':' else Hex2(m[i / 3])[i % 3])
  }

  /** Whether `s` has the shape `FormatMac` produces. */
  predicate IsMacText(s: string) {
    && |s| == 17
    && (forall k :: 0 <= k < 5 ==> s[3 * k + 2] == ':')
    && (forall k :: 0 <= k < 6 ==> Text.IsLowerHexDigit(s[3 * k]) && Text.IsLowerHexDigit(s[3 * k + 1]))
  }

  /** Reads a hardware address back from its text; anything not in the
      lowercase colon-separated form is rejected. */
  function ParseMac(s: string): (r: Option<MacBytes>)
    ensures r.Some? <==> IsMacText(s)
  {
    if IsMacText(s) then
      Some(seq(6, k requires 0 <= k < 6 =>
        (Text.HexValue(s[3 * k]) * 16 + Text.HexValue(s[3 * k + 1])) as byte))
    else None
  }

  /** The text form loses nothing: parsing it gives back the address. */
  lemma MacRoundTrip(m: MacBytes)
    ensures ParseMac(FormatMac(m)) == Some(m)
  {
    var s := FormatMac(m);
    var r := ParseMac(s).value;
    forall k | 0 <= k < 6 ensures r[k] == m[k] {
      assert (3 * k) / 3 == k && (3 * k) % 3 == 0 && (3 * k + 1) / 3 == k && (3 * k + 1) % 3 == 1;
      assert s[3 * k] == Hex2(m[k])[0] && s[3 * k + 1] == Hex2(m[k])[1];
    }
    assert r == m;
  }

  /** Distinct addresses give distinct texts, so the MAC text identifies the
      device as the raw address does. */
  lemma FormatMacInjective(a: MacBytes, b: MacBytes)
    ensures FormatMac(a) == FormatMac(b) ==> a == b
  {
    if FormatMac(a) == FormatMac(b) {
      MacRoundTrip(a);
      MacRoundTrip(b);
    }
  }

  /** Opcode 1 is a request, 2 a reply; any other opcode yields no event. */
  function ParseArpPacket(p: ArpPacket): (r: Option<NetworkEvent>)
    ensures r.Some? <==> p.operation == 1 || p.operation == 2
    ensures r.Some? ==> (r.value.ArpRequest? <==> p.operation == 1) && (r.value.ArpReply? <==> p.operation == 2)
    ensures r.Some? ==> ParseMac(r.value.sourceMac) == Some(p.senderHw) && r.value.sourceIp.V4?
                        && [r.value.sourceIp.a, r.value.sourceIp.b, r.value.sourceIp.c, r.value.sourceIp.d] == p.senderProto
  {
    MacRoundTrip(p.senderHw);
    match p.operation
    case 1 => Some(ArpRequest(FormatMac(p.senderHw), SenderIp(p.senderProto)))
    case 2 => Some(ArpReply(FormatMac(p.senderHw), SenderIp(p.senderProto)))
    case _ => None
  }
}
